/** The store as it is in memory: nodes reachable both through the key index and
    through the doubly linked recency list, tail (least recent) to head, with the
    global byte count kept by deltas only. */
module Lru {
  import opened Text
  import opened Costs
  import opened Hash
  import opened Keyspace

  // `type` and the variant always agree; both are the constructor of Data.
  datatype Data =
    | StringData(text: string)
    | ListData(items: seq<string>)
    | HashData(hash: DrutaHash)
    | SetData(elements: set<string>)

  datatype DrutaValue = DrutaValue(data: Data, expiry: int, memoryUsage: nat)

  class DrutaNode {
    const key: string
    var next: DrutaNode?
    var prev: DrutaNode?
    var value: DrutaValue

    constructor (key: string, value: DrutaValue)
      ensures this.key == key && this.value == value && next == null && prev == null
    {
      this.key, this.value, next, prev := key, value, null, null;
    }

    function GetMemoryUsage(): nat
      reads this`value
    {
      NODE_OBJECT + Cap(key) + value.memoryUsage
    }

    ghost function Owned(): set<DrutaHash>
      reads this`value
    {
      if value.data.HashData? then {value.data.hash} else {}
    }

    /** The node holds this value, and its own byte count is the recount of it. */
    ghost predicate Holds(v: Value)
      reads this`value, Owned()`rep, Owned()`memoryUsage
    {
      && value.memoryUsage == ValueMem(v)
      && (match value.data
          case StringData(s) => v == StringValue(s, value.expiry)
          case ListData(items) => v == ListValue(items)
          case HashData(h) => h.Valid() && v == HashValue(h.rep)
          case SetData(s) => v == SetValue(s))
      && (!value.data.StringData? ==> value.expiry == 0)
    }
  }

  // ---------- the key index and the listed nodes ----------

  type Index = map<string, DrutaNode>

  function Keys(nodes: seq<DrutaNode>): (keys: seq<string>)
    ensures |keys| == |nodes|
  {
    seq(|nodes|, i requires 0 <= i < |nodes| => nodes[i].key)
  }

  /** The neighbours of a position. */
  function Succ(nodes: seq<DrutaNode>, i: nat): DrutaNode? {
    if i + 1 < |nodes| then nodes[i + 1] else null
  }

  function Pred(nodes: seq<DrutaNode>, i: nat): DrutaNode? {
    if 0 < i <= |nodes| then nodes[i - 1] else null
  }

  ghost function All(nodes: seq<DrutaNode>): set<DrutaNode> { set n | n in nodes }

  predicate Apart(nodes: seq<DrutaNode>) {
    forall i, j :: 0 <= i < j < |nodes| ==> nodes[i] != nodes[j]
  }

  function Cut(nodes: seq<DrutaNode>, i: nat): (rest: seq<DrutaNode>)
    requires i < |nodes|
    ensures |rest| == |nodes| - 1
  {
    nodes[..i] + nodes[i + 1..]
  }

  /** The listed nodes are exactly those of the index, under their own keys. */
  ghost predicate Indexed(index: Index, nodes: seq<DrutaNode>) {
    && Apart(nodes)
    && (forall n :: n in nodes ==> n.key in index && index[n.key] == n)
    && (forall k :: k in index ==> index[k] in nodes && index[k].key == k)
  }

  lemma KeysOfIndexed(index: Index, nodes: seq<DrutaNode>)
    requires Indexed(index, nodes)
    ensures Distinct(Keys(nodes))
    ensures forall k :: k in Keys(nodes) <==> k in index
    ensures |index| == |nodes|
  {
    var order := Keys(nodes);
    forall i, j | 0 <= i < j < |order| ensures order[i] != order[j] {
      assert nodes[i] in nodes && nodes[j] in nodes;
    }
    forall k ensures k in order <==> k in index {
      if k in order {
        var i :| 0 <= i < |order| && order[i] == k;
        assert nodes[i] in nodes;
      }
      if k in index {
        var i :| 0 <= i < |nodes| && nodes[i] == index[k];
        assert order[i] == k;
      }
    }
    DistinctSize(order);
    assert index.Keys == Elements(order);
  }

  lemma {:induction false} DistinctSize(s: seq<string>)
    requires Distinct(s)
    ensures |Elements(s)| == |s|
  {
    if s != [] {
      DistinctSize(s[1..]);
      assert Elements(s) == {s[0]} + Elements(s[1..]);
      assert s[0] !in s[1..];
    }
  }

  lemma CutMembers(nodes: seq<DrutaNode>, i: nat)
    requires Apart(nodes) && i < |nodes|
    ensures nodes[i] !in Cut(nodes, i) && Apart(Cut(nodes, i))
    ensures All(Cut(nodes, i)) <= All(nodes)
    ensures forall n :: n in nodes <==> n == nodes[i] || n in Cut(nodes, i)
  {
    assert nodes == nodes[..i] + [nodes[i]] + nodes[i + 1..];
  }

  lemma CutIndexed(index: Index, nodes: seq<DrutaNode>, i: nat)
    requires Indexed(index, nodes) && i < |nodes|
    ensures nodes[i] !in Cut(nodes, i)
    ensures All(Cut(nodes, i)) <= All(nodes)
    ensures forall n :: n in nodes <==> n == nodes[i] || n in Cut(nodes, i)
    ensures Indexed(index - {nodes[i].key}, Cut(nodes, i))
    ensures Indexed(index, Cut(nodes, i) + [nodes[i]])
  {
    hide Cut, Apart;
    var node, rest := nodes[i], Cut(nodes, i);
    CutMembers(nodes, i);
    assert index[node.key] == node;
    var smaller := index - {node.key};
    forall n | n in rest ensures n.key in smaller && smaller[n.key] == n {
      assert n in All(nodes);
      assert index[n.key] == n;
    }
    forall k | k in smaller ensures smaller[k] in rest && smaller[k].key == k {
      assert index[k] in nodes;
    }
    AddNode(index, rest, node);
  }

  lemma CutFirst(index: Index, nodes: seq<DrutaNode>)
    requires Indexed(index, nodes) && nodes != []
    ensures Indexed(index - {nodes[0].key}, nodes[1..])
    ensures nodes[0].key in index && index[nodes[0].key] == nodes[0]
    ensures Cut(nodes, 0) == nodes[1..]
    ensures Keys(nodes) == [nodes[0].key] + Keys(nodes[1..])
  {
    hide Indexed;
    CutIndexed(index, nodes, 0);
    NodeOf(index, nodes, nodes[0]);
    assert Cut(nodes, 0) == nodes[1..];
  }

  lemma NodeOf(index: Index, nodes: seq<DrutaNode>, node: DrutaNode)
    requires Indexed(index, nodes) && node in nodes
    ensures node.key in index && index[node.key] == node
  {}

  lemma OthersDiffer(index: Index, nodes: seq<DrutaNode>, k: string)
    requires Indexed(index, nodes) && k in index
    ensures forall j :: j in index && j != k ==> index[j] != index[k]
  {}

  lemma KeysConcat(a: seq<DrutaNode>, b: seq<DrutaNode>)
    ensures Keys(a + b) == Keys(a) + Keys(b)
  {}

  lemma KeysAround(nodes: seq<DrutaNode>, i: nat)
    requires i < |nodes|
    ensures Keys(nodes[..i]) == Keys(nodes)[..i] && Keys(nodes[i + 1..]) == Keys(nodes)[i + 1..]
    ensures Keys([nodes[i]]) == [nodes[i].key] && Keys(nodes)[i] == nodes[i].key
  {}

  lemma CutKeys(index: Index, nodes: seq<DrutaNode>, i: nat)
    requires Indexed(index, nodes) && i < |nodes|
    ensures Keys(Cut(nodes, i)) == Without(Keys(nodes), nodes[i].key)
    ensures Keys(Cut(nodes, i) + [nodes[i]]) == Without(Keys(nodes), nodes[i].key) + [nodes[i].key]
  {
    var node, rest := nodes[i], Cut(nodes, i);
    KeysOfIndexed(index, nodes);
    hide Indexed, Without, Distinct, Keys;
    KeysAround(nodes, i);
    KeysConcat(nodes[..i], nodes[i + 1..]);
    KeysConcat(rest, [node]);
    WithoutAt(Keys(nodes), i);
  }

  lemma AddNode(index: Index, nodes: seq<DrutaNode>, node: DrutaNode)
    requires Indexed(index - {node.key}, nodes)
    requires node.key in index && index[node.key] == node
    ensures node !in nodes
    ensures Indexed(index, nodes + [node])
    ensures Keys(nodes + [node]) == Keys(nodes) + [node.key]
  {
    var smaller := index - {node.key};
    forall k | k in index ensures index[k] in nodes + [node] && index[k].key == k {
      if k != node.key { assert k in smaller && smaller[k] == index[k]; }
    }
  }

  // ---------- contents ----------

  ghost function Owned(ns: set<DrutaNode>): set<DrutaHash>
    reads ns`value
  {
    set n | n in ns && n.value.data.HashData? :: n.value.data.hash
  }

  /** Under every key the node holds the value given for it, nodes and hashes
      belong to the store, and no two nodes share a hash. */
  ghost predicate Contents(index: Index, vals: Values, repr: set<object>)
    reads index.Values`value, Owned(index.Values)`rep, Owned(index.Values)`memoryUsage
  {
    && vals.Keys == index.Keys
    && (forall k :: k in index ==> index[k] in repr && index[k].Holds(vals[k]))
    && (forall k :: k in index && index[k].value.data.HashData? ==> index[k].value.data.hash in repr)
    && (forall j, k :: j in index && k in index && j != k
          ==> (index[j].value.data.HashData? && index[k].value.data.HashData?
               ==> index[j].value.data.hash != index[k].value.data.hash))
  }

  lemma DropContents(index: Index, vals: Values, repr: set<object>, k: string)
    requires k in index && Contents(index, vals, repr)
    ensures Contents(index - {k}, vals - {k}, repr)
    ensures index[k].key == k ==>
              Total(vals) == index[k].GetMemoryUsage() + Total(vals - {k})
  {
    TotalDrop(vals, k);
  }

  /** Taking one key out of the contents, and putting it back with another value. */
  lemma SplitContents(index: Index, vals: Values, repr: set<object>, k: string)
    requires k in index && Contents(index, vals, repr)
    ensures Contents(index - {k}, vals - {k}, repr)
    ensures index[k] in repr && index[k].Holds(vals[k])
    ensures index[k].Owned() <= repr && index[k].Owned() !! Owned((index - {k}).Values)
  {
    forall h | h in Owned((index - {k}).Values) ensures h !in index[k].Owned() {
      var j :| j in index - {k} && index[j].value.data.HashData? && index[j].value.data.hash == h;
      assert j in index && j != k;
    }
  }

  lemma JoinContents(index: Index, vals: Values, repr: set<object>, k: string)
    requires k in index && vals.Keys == index.Keys
    requires Contents(index - {k}, vals - {k}, repr)
    requires index[k] in repr && index[k].Holds(vals[k])
    requires index[k].Owned() <= repr && index[k].Owned() !! Owned((index - {k}).Values)
    ensures Contents(index, vals, repr)
  {
    var rest := index - {k};
    assert forall j :: j in index && j != k ==> j in rest && rest[j] == index[j] && rest[j] in rest.Values;
    forall j | j in index && j != k && index[j].value.data.HashData? && index[k].value.data.HashData?
      ensures index[j].value.data.hash != index[k].value.data.hash
    {
      assert index[j].value.data.hash in Owned(rest.Values);
    }
  }

  lemma WidenRepr(index: Index, vals: Values, small: set<object>, large: set<object>)
    requires Contents(index, vals, small) && small <= large
    ensures Contents(index, vals, large)
    ensures Owned(index.Values) <= small && index.Values <= small
  {
    forall h | h in Owned(index.Values) ensures h in small {
      var j :| j in index && index[j].value.data.HashData? && index[j].value.data.hash == h;
    }
  }

  lemma UsageIs(index: Index, vals: Values, repr: set<object>, k: string)
    requires Contents(index, vals, repr) && k in index && index[k].key == k
    ensures index[k].GetMemoryUsage() == NodeMem(k, vals[k])
  {}

  lemma ContentsKeys(index: Index, vals: Values, repr: set<object>)
    requires Contents(index, vals, repr)
    ensures vals.Keys == index.Keys
  {}

  class Store {
    var head: DrutaNode?
    var tail: DrutaNode?
    var lruSize: nat
    var memory: nat
    var index: Index

    ghost var nodes: seq<DrutaNode>
    ghost var vals: Values
    ghost var Repr: set<object>

    /** tail -> next -> head visits `nodes`, without repetition, and prev is the
        exact inverse of next. */
    ghost predicate Linked()
      reads this`head, this`tail, this`nodes, All(nodes)`next, All(nodes)`prev
    {
      && (nodes == [] ==> head == null && tail == null)
      && (nodes != [] ==>
            && tail == nodes[0] && nodes[0].prev == null
            && head == nodes[|nodes| - 1] && nodes[|nodes| - 1].next == null)
      && (forall i {:trigger nodes[i].next} :: 0 <= i < |nodes| - 1 ==> nodes[i].next == nodes[i + 1])
      && (forall i {:trigger nodes[i].prev} :: 0 < i < |nodes| ==> nodes[i].prev == nodes[i - 1])
      && Apart(nodes)
    }

    /** Everything but the global byte count. */
    ghost predicate Structure()
      reads this, Repr, nodes, index.Values`value, Owned(index.Values)`rep, Owned(index.Values)`memoryUsage
    {
      && Linked() && Indexed(index, nodes) && lruSize == |nodes|
      && this in Repr && Contents(index, vals, Repr)
    }

    /** The abstract state. */
    ghost function Abs(): Db
      reads this
    {
      Db(Keys(nodes), vals)
    }

    /** The full invariant: the running byte count is the sum over all nodes. */
    ghost predicate Valid()
      reads this, Repr, nodes, index.Values`value, Owned(index.Values)`rep, Owned(index.Values)`memoryUsage
    {
      Structure() && memory == Total(vals)
    }

    constructor ()
      ensures Valid() && fresh(Repr) && Abs() == EMPTY
    {
      head, tail, lruSize, memory, index := null, null, 0, 0, map[];
      nodes, vals, Repr := [], map[], {this};
      new;
      TotalEmpty();
    }

    // ---------- links ----------

    /** Each node's neighbours, the ends included. */
    lemma Neighbours()
      requires Linked()
      ensures forall j {:trigger nodes[j].next} :: 0 <= j < |nodes| ==> nodes[j].next == Succ(nodes, j)
      ensures forall j {:trigger nodes[j].prev} :: 0 <= j < |nodes| ==> nodes[j].prev == Pred(nodes, j)
      ensures nodes != [] ==> tail == nodes[0] && head == nodes[|nodes| - 1]
    {}

    /** The first half of detach: next links and the tail pass the node over. */
    method PassForward(node: DrutaNode, ghost i: nat)
      requires i < |nodes| && nodes[i] == node && Apart(nodes)
      requires forall j {:trigger nodes[j].next} :: 0 <= j < |nodes| ==> nodes[j].next == Succ(nodes, j)
      requires tail == nodes[0] && node.prev == Pred(nodes, i)
      modifies this`tail, All(nodes)`next
      ensures tail == if i == 0 then Succ(nodes, 0) else nodes[0]
      ensures forall j {:trigger nodes[j].next} :: 0 <= j < |nodes| && j != i ==>
                nodes[j].next == Succ(nodes, if j + 1 == i then i else j)
      ensures node.next == null
    {
      if node.prev != null {
        node.prev.next := node.next;
      } else {
        tail := node.next;
      }
      node.next := null;
    }

    /** The second half: prev links and the head. */
    method PassBackward(node: DrutaNode, next: DrutaNode?, ghost i: nat)
      requires i < |nodes| && nodes[i] == node && Apart(nodes) && next == Succ(nodes, i)
      requires forall j {:trigger nodes[j].prev} :: 0 <= j < |nodes| ==> nodes[j].prev == Pred(nodes, j)
      requires head == nodes[|nodes| - 1]
      modifies this`head, All(nodes)`prev
      ensures head == if i == |nodes| - 1 then Pred(nodes, i) else nodes[|nodes| - 1]
      ensures forall j {:trigger nodes[j].prev} :: 0 <= j < |nodes| && j != i ==>
                nodes[j].prev == Pred(nodes, if j == i + 1 then i else j)
      ensures node.prev == null
    {
      if next != null {
        next.prev := node.prev;
      } else {
        head := node.prev;
      }
      node.prev := null;
    }

    lemma CutLinked(was: seq<DrutaNode>, i: nat)
      requires i < |was| && nodes == Cut(was, i) && Apart(was)
      requires tail == if i == 0 then Succ(was, 0) else was[0]
      requires head == if i == |was| - 1 then Pred(was, i) else was[|was| - 1]
      requires forall j {:trigger was[j].next} :: 0 <= j < |was| && j != i ==>
                 was[j].next == Succ(was, if j + 1 == i then i else j)
      requires forall j {:trigger was[j].prev} :: 0 <= j < |was| && j != i ==>
                 was[j].prev == Pred(was, if j == i + 1 then i else j)
      ensures Linked()
    {
      CutMembers(was, i);
    }

    method Detach(node: DrutaNode, ghost i: nat)
      requires Linked() && i < |nodes| && nodes[i] == node
      modifies this`head, this`tail, this`nodes, All(nodes)`next, All(nodes)`prev
      ensures Linked() && nodes == Cut(old(nodes), i)
      ensures node.next == null && node.prev == null
    {
      Neighbours();
      hide Apart, Cut, Linked, Succ, Pred;
      ghost var was := nodes;
      var next := node.next;
      PassForward(node, i);
      PassBackward(node, next, i);
      nodes := Cut(nodes, i);
      CutLinked(was, i);
    }

    method AttachHead(node: DrutaNode)
      requires Linked() && node !in nodes && node.next == null && node.prev == null
      modifies this`head, this`tail, this`nodes, All(nodes)`next, node`prev
      ensures Linked() && nodes == old(nodes) + [node]
    {
      if head == null {
        head, tail := node, node;
      } else {
        node.prev := head;
        head.next := node;
        head := node;
      }
      nodes := nodes + [node];
    }

    // ---------- recency ----------

    lemma LinkedEnds()
      requires Linked()
      ensures nodes == [] <==> tail == null
      ensures nodes != [] ==> tail == nodes[0]
    {}

    lemma HeadPosition(node: DrutaNode, i: nat)
      requires Linked() && i < |nodes| && nodes[i] == node
      ensures node == head <==> i == |nodes| - 1
      ensures node == head ==> Cut(nodes, i) + [node] == nodes
    {}

    /** What taking a listed node out and putting it back at the head does. */
    lemma Located(node: DrutaNode) returns (i: nat)
      requires Linked() && Indexed(index, nodes) && node in nodes
      ensures i < |nodes| && nodes[i] == node && node !in Cut(nodes, i)
      ensures node.key in index && index[node.key] == node
      ensures Indexed(index, Cut(nodes, i) + [node])
      ensures Keys(Cut(nodes, i) + [node]) == Without(Keys(nodes), node.key) + [node.key]
      ensures node == head ==> Cut(nodes, i) + [node] == nodes
      ensures All(Cut(nodes, i)) <= All(nodes)
    {
      hide Linked, Indexed, Keys, Without, Cut;
      i :| 0 <= i < |nodes| && nodes[i] == node;
      CutIndexed(index, nodes, i);
      CutKeys(index, nodes, i);
      NodeOf(index, nodes, node);
      HeadPosition(node, i);
    }

    method MoveToHead(node: DrutaNode, ghost i: nat)
      requires Linked() && i < |nodes| && nodes[i] == node && node !in Cut(nodes, i)
      modifies this`head, this`tail, this`nodes, All(nodes)`next, All(nodes)`prev
      ensures Linked() && nodes == Cut(old(nodes), i) + [node]
    {
      assert All(Cut(nodes, i)) <= All(nodes);
      Detach(node, i);
      AttachHead(node);
    }

    method TouchLru(node: DrutaNode)
      requires Structure() && node in nodes
      modifies this`head, this`tail, this`nodes, All(nodes)`next, All(nodes)`prev
      ensures Structure() && Abs() == Touch(old(Abs()), node.key)
    {
      hide Linked, Indexed, Apart, Keys, Without, Cut, Contents;
      ghost var i := Located(node);
      ContentsKeys(index, vals, Repr);
      if node != head {
        MoveToHead(node, i);
      }
      assert Owned(index.Values) == old(Owned(index.Values));
      assert forall h :: h in Owned(index.Values) ==> h.rep == old(h.rep) && h.memoryUsage == old(h.memoryUsage);
    }

    /** Takes a node off the list and out of the count, as both remove_from_lru
        and evict_lru do; erasing it from the index is left to them. */
    method Unlink(node: DrutaNode, ghost i: nat)
      requires Linked() && lruSize == |nodes| && i < |nodes| && nodes[i] == node
      requires memory >= node.GetMemoryUsage()
      requires Contents(index, vals, Repr)
      modifies this`head, this`tail, this`lruSize, this`memory, this`nodes, All(nodes)`next, All(nodes)`prev
      ensures Linked() && lruSize == |nodes| && nodes == Cut(old(nodes), i)
      ensures memory == old(memory) - node.GetMemoryUsage()
      ensures Contents(index, vals, Repr)
    {
      hide Linked, Contents, Cut;
      memory := memory - node.GetMemoryUsage();
      Detach(node, i);
      lruSize := lruSize - 1;
      assert Owned(index.Values) == old(Owned(index.Values));
      assert forall h :: h in Owned(index.Values) ==> h.rep == old(h.rep) && h.memoryUsage == old(h.memoryUsage);
    }

    /** Drops the least recent node, if there is one. */
    method EvictLru()
      requires Valid()
      modifies this`head, this`tail, this`lruSize, this`memory, this`index, this`nodes, this`vals,
               All(nodes)`next, All(nodes)`prev
      ensures Valid()
      ensures if old(nodes) == [] then Abs() == old(Abs()) && nodes == [] && index == old(index)
              else Abs() == DropOldest(old(Abs()))
                   && nodes == old(nodes)[1..] && index == old(index) - {old(nodes)[0].key}
    {
      hide Linked, Indexed, Apart, Keys, Without, Cut, Total, Contents;
      LinkedEnds();
      if tail == null {
        return;
      }
      var leastUsed := tail;
      CutFirst(index, nodes);
      DropContents(index, vals, Repr, leastUsed.key);
      Unlink(leastUsed, 0);
      DropContents(index, vals, Repr, leastUsed.key);
      index := index - {leastUsed.key};
      vals := vals - {leastUsed.key};
    }

    /** The loop of add_lru and notify_memory_change. */
    method EvictUntilSafe()
      requires Valid()
      modifies this`head, this`tail, this`lruSize, this`memory, this`index, this`nodes, this`vals,
               All(nodes)`next, All(nodes)`prev
      ensures Valid() && Abs() == EvictToFit(old(Abs()))
      ensures All(nodes) <= old(All(nodes))
      ensures forall k :: k in index ==> k in old(index) && index[k] == old(index)[k]
    {
      while memory > LRU_MAX_MEMORY && tail != null
        invariant Valid()
        invariant EvictToFit(Abs()) == EvictToFit(old(Abs()))
        invariant All(nodes) <= old(All(nodes))
        invariant forall k :: k in index ==> k in old(index) && index[k] == old(index)[k]
        decreases |nodes|
      {
        hide Linked, Indexed, Apart, Contents, Keys;
        LinkedEnds();
        EvictLru();
      }
      hide Indexed, Contents;
      LinkedEnds();
    }

    method Link(node: DrutaNode, ghost w: Values)
      requires Linked() && node !in nodes && node.next == null && node.prev == null
      requires Contents(index, w, Repr)
      modifies this`head, this`tail, this`nodes, All(nodes)`next, node`prev
      ensures Linked() && nodes == old(nodes) + [node]
      ensures Contents(index, w, Repr)
    {
      hide Linked, Contents;
      AttachHead(node);
      assert Owned(index.Values) == old(Owned(index.Values));
      assert forall h :: h in Owned(index.Values) ==> h.rep == old(h.rep) && h.memoryUsage == old(h.memoryUsage);
    }

    /** A node already in the index joins the list as the most recent one. */
    method CountAndLink(node: DrutaNode, ghost v: Value)
      requires Linked() && node.key in index && index[node.key] == node
      requires Indexed(index - {node.key}, nodes) && lruSize == |nodes| && this in Repr
      requires node.key !in vals && Contents(index, vals[node.key := v], Repr)
      requires memory == Total(vals)
      requires node.next == null && node.prev == null
      modifies this`head, this`tail, this`lruSize, this`memory, this`nodes, this`vals,
               All(nodes)`next, node`prev
      ensures Valid() && Abs() == Append(old(Abs()), node.key, v)
      ensures nodes == old(nodes) + [node]
    {
      hide Linked, Indexed, Apart, Keys, Contents, Total;
      AddNode(index, nodes, node);
      TotalPut(vals, node.key, v);
      UsageIs(index, vals[node.key := v], Repr, node.key);
      memory := memory + node.GetMemoryUsage();
      Link(node, vals[node.key := v]);
      lruSize := lruSize + 1;
      vals := vals[node.key := v];
    }

    method AddLru(node: DrutaNode, ghost v: Value)
      requires Linked() && node.key in index && index[node.key] == node
      requires Indexed(index - {node.key}, nodes) && lruSize == |nodes| && this in Repr
      requires node.key !in vals && Contents(index, vals[node.key := v], Repr)
      requires memory == Total(vals)
      requires node.next == null && node.prev == null
      modifies this`head, this`tail, this`lruSize, this`memory, this`index, this`nodes, this`vals,
               All(nodes)`next, All(nodes)`prev, node`next, node`prev
      ensures Valid() && Abs() == EvictToFit(Append(old(Abs()), node.key, v))
      ensures All(nodes) <= old(All(nodes)) + {node}
      ensures forall k :: k in index ==> k in old(index) && index[k] == old(index)[k]
    {
      hide Structure, Linked, Indexed, Contents, Keys, Total;
      CountAndLink(node, v);
      EvictUntilSafe();
    }

    /** After a value has changed size, settles the global count and evicts. The
        clamp at zero is never reached with bytes still in use. */
    method NotifyMemoryChange(oldSize: nat, newSize: nat)
      requires Structure() && memory + newSize == Total(vals) + oldSize
      modifies this`head, this`tail, this`lruSize, this`memory, this`index, this`nodes, this`vals,
               All(nodes)`next, All(nodes)`prev
      ensures Valid() && Abs() == EvictToFit(old(Abs()))
      ensures All(nodes) <= old(All(nodes))
      ensures forall k :: k in index ==> k in old(index) && index[k] == old(index)[k]
    {
      hide Linked, Indexed, Keys, Total, Contents;
      if newSize > oldSize {
        memory := memory + (newSize - oldSize);
      } else {
        var diff := oldSize - newSize;
        if memory > diff {
          memory := memory - diff;
        } else {
          memory := 0;
        }
      }
      assert Contents(index, vals, Repr);
      EvictUntilSafe();
    }

    /** Stores a value that is not a hash into a listed node. */
    method Assign(node: DrutaNode, value: DrutaValue, ghost v: Value)
      requires Structure() && node in nodes && node.key in vals
      requires !value.data.HashData? && value.memoryUsage == ValueMem(v)
      requires match value.data
               case StringData(s) => v == StringValue(s, value.expiry)
               case ListData(items) => v == ListValue(items) && value.expiry == 0
               case SetData(s) => v == SetValue(s) && value.expiry == 0
      modifies this`vals, node`value
      ensures Structure() && node.value == value && vals == old(vals)[node.key := v]
    {
      hide Linked, Indexed, ValueMem;
      NodeOf(index, nodes, node);
      OthersDiffer(index, nodes, node.key);
      node.value := value;
      vals := vals[node.key := v];
    }

    /** The node under a key, as kv_store.find gives it. */
    function Find(key: string): DrutaNode?
      reads this`index
    {
      if key in index then index[key] else null
    }

    lemma Found(key: string)
      requires Structure()
      ensures Find(key) == null <==> key !in vals
      ensures Find(key) != null ==>
                var node := Find(key);
                node in nodes && node in Repr && node.key == key && node.Holds(vals[key])
                && node.Owned() <= Repr && key in index && index[key] == node
    {}

    /** A node of the caller's enters the index, not yet the list. */
    method Register(node: DrutaNode, ghost v: Value)
      requires Valid() && node.key !in vals && node !in Repr && node.Holds(v) && node.Owned() !! Repr
      modifies this`index, this`Repr
      ensures Linked() && node.key in index && index[node.key] == node
      ensures Indexed(index - {node.key}, nodes) && lruSize == |nodes| && this in Repr
      ensures Contents(index, vals[node.key := v], Repr) && memory == Total(vals)
      ensures Repr == old(Repr) + {node} + node.Owned() && nodes == old(nodes) && vals == old(vals)
    {
      hide Linked, Indexed, Contents, Total, ValueMem, DrutaNode.Holds, Apart;
      var before := index;
      ContentsKeys(before, vals, Repr);
      WidenRepr(before, vals, Repr, Repr + {node} + node.Owned());
      index := index[node.key := node];
      Repr := Repr + {node} + node.Owned();
      assert index - {node.key} == before;
      assert vals[node.key := v] - {node.key} == vals;
      JoinContents(index, vals[node.key := v], Repr, node.key);
    }

    /** make_unique, entry into the index, and add_lru. */
    method Insert(key: string, value: DrutaValue, ghost v: Value) returns (node: DrutaNode)
      requires Valid() && key !in vals
      requires value.memoryUsage == ValueMem(v) && (!value.data.StringData? ==> value.expiry == 0)
      requires match value.data
               case StringData(s) => v == StringValue(s, value.expiry)
               case ListData(items) => v == ListValue(items)
               case HashData(h) => h !in Repr && h.Valid() && v == HashValue(h.rep)
               case SetData(s) => v == SetValue(s)
      modifies Repr
      ensures Valid() && Abs() == EvictToFit(Append(old(Abs()), key, v))
      ensures fresh(node) && Repr == old(Repr) + {node} + node.Owned()
      ensures node.key == key && node.value == value
      ensures key in index ==> index[key] == node
    {
      hide Linked, Indexed, ValueMem, Contents, Structure;
      NodesInRepr();
      node := new DrutaNode(key, value);
      Register(node, v);
      AddLru(node, v);
    }

    lemma AbsConsistent()
      requires Structure()
      ensures Consistent(Abs())
    {
      KeysOfIndexed(index, nodes);
      forall k | k in vals && vals[k].HashValue? ensures WellFormed(vals[k].hash) {
        assert index[k].Holds(vals[k]);
      }
    }

    lemma NodesInRepr()
      requires Structure()
      ensures All(nodes) <= Repr && this in Repr && Owned(index.Values) <= Repr
    {
      forall n | n in nodes ensures n in Repr { assert index[n.key] == n; }
    }

    /** remove_from_lru and erasure from the index. */
    method Erase(node: DrutaNode)
      requires Valid() && node in nodes
      modifies Repr
      ensures Valid() && Repr == old(Repr) && Abs() == Remove(old(Abs()), node.key)
    {
      hide Linked, Indexed, Contents, Keys, Without;
      NodesInRepr();
      RemoveFromLru(node);
      index := index - {node.key};
    }

    /** After the hash of a listed node has been changed through its own methods,
        brings the node's count up to date. */
    method Recount(node: DrutaNode, usage: nat, ghost v: Value)
      requires Linked() && Indexed(index, nodes) && lruSize == |nodes| && this in Repr
      requires node.key in index && index[node.key] == node && vals.Keys == index.Keys
      requires Contents(index - {node.key}, vals - {node.key}, Repr)
      requires node in Repr && node.value.data.HashData? && node.value.expiry == 0
      requires node.Owned() <= Repr && node.Owned() !! Owned((index - {node.key}).Values)
      requires node.value.data.hash.Valid() && v == HashValue(node.value.data.hash.rep)
      requires usage == ValueMem(v)
      modifies this`vals, node`value
      ensures Structure() && vals == old(vals)[node.key := v] && node.value.data == old(node.value.data)
    {
      hide Linked, Indexed, Contents, ValueMem;
      OthersDiffer(index, nodes, node.key);
      ghost var rest := index - {node.key};
      assert node !in rest.Values;
      node.value := node.value.(memoryUsage := usage);
      assert Owned(rest.Values) == old(Owned(rest.Values));
      assert Contents(rest, vals - {node.key}, Repr);
      vals := vals[node.key := v];
      assert vals - {node.key} == old(vals) - {node.key};
      JoinContents(index, vals, Repr, node.key);
    }

    /** Replaces the value of a node; only SET calls it, with a string. The node
        is touched after the eviction loop, so it has to survive that loop. */
    method UpdateLru(node: DrutaNode, value: DrutaValue)
      requires Valid() && node in nodes
      requires value.data.StringData? && value.memoryUsage == STRING_OBJECT + Cap(value.data.text)
      requires var written := Write(Abs(), node.key, StringValue(value.data.text, value.expiry));
               node.key in EvictToFit(written).vals
      modifies this`head, this`tail, this`lruSize, this`memory, this`index, this`nodes, this`vals, All(nodes)
      ensures Valid()
      ensures Abs() == Touch(EvictToFit(Write(old(Abs()), node.key, StringValue(value.data.text, value.expiry))),
                             node.key)
    {
      hide Structure, Keys, Without, Total;
      ghost var v := StringValue(value.data.text, value.expiry);
      NodeListed(node);
      TotalPut(vals, node.key, v);
      var oldSize := node.GetMemoryUsage();
      Assign(node, value, v);
      var newSize := node.GetMemoryUsage();
      NotifyMemoryChange(oldSize, newSize);
      KeyListed(node.key);
      TouchLru(node);
    }

    lemma NodeListed(node: DrutaNode)
      requires Structure() && node in nodes
      ensures node.key in index && index[node.key] == node && node.key in vals
      ensures node.Holds(vals[node.key])
      ensures node.GetMemoryUsage() == NodeMem(node.key, vals[node.key])
    {}

    /** Where a walk along next goes. */
    lemma Walk(i: nat)
      requires Structure() && i <= |nodes|
      ensures tail == if nodes == [] then null else nodes[0]
      ensures i < |nodes| ==> nodes[i].next == if i + 1 < |nodes| then nodes[i + 1] else null
    {}

    lemma KeyListed(k: string)
      requires Structure() && k in vals
      ensures k in index && index[k] in nodes && index[k].key == k
    {}

    /** Unlinks a node; the caller erases it from the index. */
    method RemoveFromLru(node: DrutaNode)
      requires Valid() && node in nodes
      modifies this`head, this`tail, this`lruSize, this`memory, this`nodes, this`vals,
               All(nodes)`next, All(nodes)`prev
      ensures Linked() && Indexed(index - {node.key}, nodes) && lruSize == |nodes|
      ensures node.key in index && Contents(index - {node.key}, vals, Repr)
      ensures memory == Total(vals) && Abs() == Remove(old(Abs()), node.key)
      ensures All(nodes) <= old(All(nodes))
    {
      hide Linked, Indexed, Apart, Keys, Without, Cut, Total, Contents;
      ghost var i := Located(node);
      DropContents(index, vals, Repr, node.key);
      CutIndexed(index, nodes, i);
      CutKeys(index, nodes, i);
      Unlink(node, i);
      DropContents(index, vals, Repr, node.key);
      vals := vals - {node.key};
    }

    /** Resets the list only; the caller clears the index. */
    method ClearLru()
      modifies this`head, this`tail, this`lruSize, this`memory, this`nodes, this`vals
      ensures head == null && tail == null && lruSize == 0 && memory == 0
      ensures nodes == [] && vals == map[]
    {
      head, tail, lruSize, memory := null, null, 0, 0;
      nodes, vals := [], map[];
    }
  }
}
