/** The command handlers over the store in memory, each proved to do what its
    specification in Commands says. */
module Handlers {
  import opened Text
  import opened Costs
  import opened Hash
  import opened Keyspace
  import opened Commands
  import opened Lru

  /** State and answers agree with an applied command. */
  ghost predicate Follows(after: Db, before: Db, a: Applied, reply: Reply, success: bool) {
    after == Settle(before, a.effect) && reply == a.reply && success == a.success
  }

  // ---------- SET, GET, DEL, FLUSHDB ----------

  method ReadExpiry(args: Command, now: int) returns (expiry: Option<int>)
    requires |args| >= 3
    ensures expiry == ParseExpiry(args, 3, 0, now)
  {
    var at := 0;
    var i := 3;
    while i < |args|
      invariant 3 <= i
      invariant ParseExpiry(args, i, at, now) == ParseExpiry(args, 3, 0, now)
    {
      var opt := UpperCase(args[i]);
      if opt == "EX" && i + 1 < |args| {
        var seconds := Stoll(args[i + 1]);
        if seconds == None { return None; }
        at := now + seconds.value * 1000;
        i := i + 1;
      } else if opt == "PX" && i + 1 < |args| {
        var ms := Stoll(args[i + 1]);
        if ms == None { return None; }
        at := now + ms.value;
        i := i + 1;
      } else if opt == "PXAT" && i + 1 < |args| {
        var ms := Stoll(args[i + 1]);
        if ms == None { return None; }
        at := ms.value;
        i := i + 1;
      }
      i := i + 1;
    }
    return Some(at);
  }

  method CommandSet(s: Store, args: Command, now: int) returns (reply: Reply, success: bool)
    requires s.Valid() && |args| >= 3
    requires EffectSafe(s.Abs(), ApplySet(s.vals, args, now).effect)
    modifies s.Repr
    ensures s.Valid() && fresh(s.Repr - old(s.Repr))
    ensures Follows(s.Abs(), old(s.Abs()), ApplySet(old(s.vals), args, now), reply, success)
  {
    hide Store.Structure, ParseExpiry, EvictToFit, Total, Without, Keys;
    s.NodesInRepr();
    var expiry := ReadExpiry(args, now);
    if expiry == None {
      return Failed, false;
    }
    var value := DrutaValue(StringData(args[2]), expiry.value, STRING_OBJECT + Cap(args[2]));
    s.Found(args[1]);
    var node := s.Find(args[1]);
    if node != null {
      s.UpdateLru(node, value);
    } else {
      var added := s.Insert(args[1], value, StringValue(args[2], expiry.value));
    }
    return Done, true;
  }

  method CommandGet(s: Store, key: string, now: int) returns (reply: Reply)
    requires s.Valid()
    modifies s.Repr
    ensures s.Valid() && s.Repr == old(s.Repr)
    ensures Follows(s.Abs(), old(s.Abs()), ApplyGet(old(s.vals), key, now), reply, false)
  {
    hide Store.Structure;
    s.NodesInRepr();
    s.Found(key);
    var node := s.Find(key);
    if node == null {
      return NilBulk;
    }
    if !node.value.data.StringData? {
      return WrongType;
    }
    if node.value.expiry != 0 && now > node.value.expiry {
      s.Erase(node);
      assert RemoveAll(s.Abs(), [key][1..]) == s.Abs();
      return NilBulk;
    }
    s.TouchLru(node);
    return Bulk(node.value.data.text);
  }

  method DeleteKey(s: Store, key: string) returns (found: bool)
    requires s.Valid()
    modifies s.Repr
    ensures s.Valid() && s.Repr == old(s.Repr)
    ensures s.Abs() == Remove(old(s.Abs()), key) && found == (key in old(s.vals))
  {
    hide Store.Structure, Without;
    s.NodesInRepr();
    s.Found(key);
    var node := s.Find(key);
    found := node != null;
    if found {
      s.Erase(node);
    } else {
      s.AbsConsistent();
      RemoveMissing(s.Abs(), key);
    }
  }

  method CommandDel(s: Store, keys: seq<string>) returns (reply: Reply, success: bool)
    requires s.Valid()
    modifies s.Repr
    ensures s.Valid() && s.Repr == old(s.Repr)
    ensures Follows(s.Abs(), old(s.Abs()), ApplyDel(old(s.vals), keys), reply, success)
  {
    hide Store.Valid, Without;
    var deleted := 0;
    for i := 0 to |keys|
      invariant s.Valid() && s.Repr == old(s.Repr)
      invariant RemoveAll(s.Abs(), keys[i..]) == RemoveAll(old(s.Abs()), keys)
      invariant deleted + PresentCount(s.vals, keys[i..]) == PresentCount(old(s.vals), keys)
    {
      assert keys[i..][1..] == keys[i + 1..];
      var found := DeleteKey(s, keys[i]);
      if found {
        deleted := deleted + 1;
      }
    }
    return Integer(deleted), deleted > 0;
  }

  lemma RemoveMissing(db: Db, k: string)
    requires Consistent(db) && k !in db.vals
    ensures Remove(db, k) == db && db.vals - {k} == db.vals
  {
    WithoutIs(db.order, k);
  }

  /** The part of FLUSHDB that empties the store. */
  method Flush(s: Store)
    requires s.Valid()
    modifies s
    ensures s.Valid() && s.Repr == old(s.Repr) && s.Abs() == EMPTY
  {
    s.ClearLru();
    s.index := map[];
    TotalEmpty();
  }

  // ---------- lists ----------

  /** The end of every handler that adds to a value in place: the node's count,
      the global count and eviction, then the touch. */
  method Grow(s: Store, node: DrutaNode, data: Data, delta: nat, ghost v: Value)
    requires s.Valid() && node in s.nodes && node.key in s.vals
    requires !data.StringData? && !data.HashData? && !node.value.data.StringData?
    requires v == (if data.ListData? then ListValue(data.items) else SetValue(data.elements))
    requires ValueMem(v) == ValueMem(s.vals[node.key]) + delta
    requires EffectSafe(s.Abs(), Put(node.key, v))
    modifies s.Repr
    ensures s.Valid() && s.Repr == old(s.Repr)
    ensures s.Abs() == Settle(old(s.Abs()), Put(node.key, v))
  {
    hide Store.Structure, ValueMem, Total, Keys, Without;
    s.NodesInRepr();
    s.NodeListed(node);
    TotalPut(s.vals, node.key, v);
    s.Assign(node, DrutaValue(data, node.value.expiry, node.value.memoryUsage + delta), v);
    s.NotifyMemoryChange(0, delta);
    s.KeyListed(node.key);
    s.TouchLru(node);
  }

  method GenericPush(s: Store, args: Command, atFront: bool) returns (reply: Reply, success: bool)
    requires s.Valid() && |args| >= 3
    requires EffectSafe(s.Abs(), ApplyPush(s.vals, args, atFront).effect)
    modifies s.Repr
    ensures s.Valid() && fresh(s.Repr - old(s.Repr))
    ensures Follows(s.Abs(), old(s.Abs()), ApplyPush(old(s.vals), args, atFront), reply, success)
  {
    hide Store.Structure, PushAll, EffectSafe, Total, EvictToFit;
    s.NodesInRepr();
    var key := args[1];
    s.Found(key);
    var node := s.Find(key);
    if node != null {
      if !node.value.data.ListData? {
        return WrongType, false;
      }
      var list, delta := PushItems(node.value.data.items, args, atFront);
      Grow(s, node, ListData(list), delta, ListValue(list));
      return Integer(|list|), true;
    }
    var list, delta := PushItems([], args, atFront);
    var added := s.Insert(key, DrutaValue(ListData(list), 0, delta), ListValue(list));
    return Integer(|list|), true;
  }

  /** The pushing loop, with the bytes it adds. */
  method PushItems(items: seq<string>, args: Command, atFront: bool) returns (list: seq<string>, delta: nat)
    requires |args| >= 3
    ensures list == PushAll(items, args[2..], atFront)
    ensures ListMem(list) == ListMem(items) + delta
  {
    list, delta := items, 0;
    for i := 2 to |args|
      invariant PushAll(list, args[i..], atFront) == PushAll(items, args[2..], atFront)
      invariant ListMem(list) == ListMem(items) + delta
    {
      assert args[i..][1..] == args[i + 1..];
      ListMemConcat(list, [args[i]]);
      ListMemConcat([args[i]], list);
      list := if atFront then [args[i]] + list else list + [args[i]];
      delta := delta + (Cap(args[i]) + STRING_OBJECT + PTR_SIZE);
    }
  }

  /** The popping loop: items in reply order, what is left, and the bytes freed. */
  method PopItems(items: seq<string>, count: nat, fromFront: bool)
    returns (taken: seq<string>, list: seq<string>, delta: nat)
    requires count <= |items|
    ensures (taken, list) == TakeItems(items, count, fromFront)
    ensures ListMem(items) == ListMem(list) + delta
  {
    taken, list, delta := [], items, 0;
    assert items[|items|..] == [] && items[..|items|] == items;
    var actualPop: nat := count;
    while actualPop != 0
      invariant actualPop <= count
      invariant (taken, list) == TakeItems(items, count - actualPop, fromFront)
      invariant ListMem(items) == ListMem(list) + delta
    {
      hide Reverse, ListMem;
      PopOne(items, count - actualPop, fromFront);
      var val := if fromFront then list[0] else list[|list| - 1];
      delta := delta + (Cap(val) + STRING_OBJECT + PTR_SIZE);
      list := if fromFront then list[1..] else list[..|list| - 1];
      taken := taken + [val];
      actualPop := actualPop - 1;
    }
  }

  lemma PopOne(items: seq<string>, n: nat, front: bool)
    requires n < |items|
    ensures var (taken, list) := TakeItems(items, n, front);
            && |list| == |items| - n
            && var (val, rest) := if front then (list[0], list[1..])
                                  else (list[|list| - 1], list[..|list| - 1]);
               TakeItems(items, n + 1, front) == (taken + [val], rest)
               && ListMem(list) == ListMem(rest) + ItemMem(val)
  {
    if front {
      assert items[..n + 1] == items[..n] + [items[n]];
      assert items[n..][1..] == items[n + 1..];
    } else {
      PopLast(items, |items| - n);
    }
  }

  lemma PopLast(items: seq<string>, m: nat)
    requires 0 < m <= |items|
    ensures items[..m][..m - 1] == items[..m - 1] && items[..m][m - 1] == items[m - 1]
    ensures Reverse(items[m - 1..]) == Reverse(items[m..]) + [items[m - 1]]
    ensures ListMem(items[..m]) == ListMem(items[..m - 1]) + ItemMem(items[m - 1])
  {
    var val := items[m - 1];
    assert items[m - 1..] == [val] + items[m..];
    ReverseCons(val, items[m..]);
    assert items[..m] == items[..m - 1] + [val];
    ListMemConcat(items[..m - 1], [val]);
    assert ListMem([val]) == ItemMem(val) + ListMem([val][1..]);
  }

  lemma ReverseCons(x: string, s: seq<string>)
    ensures Reverse([x] + s) == Reverse(s) + [x]
  {
    assert ([x] + s)[1..] == s;
  }

  /** The end of a handler that has already touched the node and then shrinks its
      value in place: nothing can be evicted, so the order of the two steps does
      not show. */
  method Shrink(s: Store, node: DrutaNode, data: Data, delta: nat, ghost v: Value, ghost before: Db)
    requires s.Valid() && node in s.nodes && node.key in s.vals
    requires s.Abs() == Touch(before, node.key) && Fits(before.vals)
    requires !data.StringData? && !data.HashData? && !node.value.data.StringData?
    requires v == (if data.ListData? then ListValue(data.items) else SetValue(data.elements))
    requires ValueMem(v) + delta == ValueMem(s.vals[node.key])
    modifies s.Repr
    ensures s.Valid() && s.Repr == old(s.Repr)
    ensures s.Abs() == Settle(before, Put(node.key, v))
    ensures node.key in before.vals
  {
    hide Store.Structure, ValueMem, Total, Keys, Without;
    s.NodesInRepr();
    s.NodeListed(node);
    TotalPut(s.vals, node.key, v);
    s.Assign(node, DrutaValue(data, node.value.expiry, node.value.memoryUsage - delta), v);
    assert s.Abs() == Write(Touch(before, node.key), node.key, v);
    s.NotifyMemoryChange(delta, 0);
    ShrinkSettles(before, node.key, v);
  }

  lemma ShrinkSettles(db: Db, k: string, v: Value)
    requires Fits(db.vals) && k in db.vals && NodeMem(k, v) <= NodeMem(k, db.vals[k])
    ensures Settle(db, Put(k, v)) == EvictToFit(Write(Touch(db, k), k, v)) == Touch(Write(db, k, v), k)
  {
    TotalPut(db.vals, k, v);
    assert Fits(Write(db, k, v).vals);
  }

  lemma ShrinkKeeps(db: Db, k: string, v: Value)
    requires Fits(db.vals) && k in db.vals && NodeMem(k, v) <= NodeMem(k, db.vals[k])
    ensures EvictToFit(Write(db, k, v)) == Write(db, k, v)
  {
    TotalPut(db.vals, k, v);
  }

  method GenericPop(s: Store, args: Command, fromFront: bool) returns (reply: Reply, success: bool)
    requires s.Valid() && Fits(s.vals) && |args| >= 2 && PopOk(s.vals, args)
    modifies s.Repr
    ensures s.Valid() && s.Repr == old(s.Repr)
    ensures Follows(s.Abs(), old(s.Abs()), ApplyPop(old(s.vals), args, fromFront), reply, success)
  {
    hide Store.Structure;
    s.NodesInRepr();
    var countPop := 1;
    if |args| == 3 {
      var n := Stoi(args[2]);
      countPop := if n.Some? then n.value else 1;
    } else if |args| > 3 {
      return Failed, false;
    }
    s.Found(args[1]);
    var node := s.Find(args[1]);
    if node == null {
      return Items([]), false;
    }
    if !node.value.data.ListData? {
      return WrongType, false;
    }
    var taken := PopFrom(s, node, countPop, fromFront);
    return Items(taken), true;
  }

  method PopFrom(s: Store, node: DrutaNode, count: nat, fromFront: bool) returns (taken: seq<string>)
    requires s.Valid() && Fits(s.vals) && node in s.nodes && node.value.data.ListData?
    requires node.key in s.vals && s.vals[node.key] == ListValue(node.value.data.items)
    modifies s.Repr
    ensures s.Valid() && s.Repr == old(s.Repr)
    ensures var items := old(node.value.data.items);
            var n := if count < |items| then count else |items|;
            var (out, left) := TakeItems(items, n, fromFront);
            taken == out && s.Abs() == Settle(old(s.Abs()), Put(node.key, ListValue(left)))
  {
    hide Store.Structure, Touch, Total, Settle, EvictToFit, Keys, Without;
    s.NodesInRepr();
    s.NodeListed(node);
    ghost var before := s.Abs();
    TouchVals(before, node.key);
    s.TouchLru(node);
    s.Found(node.key);
    var items := node.value.data.items;
    var countPop := if count < |items| then count else |items|;
    var left, delta;
    taken, left, delta := PopItems(items, countPop, fromFront);
    Shrink(s, node, ListData(left), delta, ListValue(left), before);
  }

  lemma TouchVals(db: Db, k: string)
    ensures Touch(db, k).vals == db.vals
  {}

  // ---------- sets ----------

  method CommandSAdd(s: Store, args: Command) returns (reply: Reply, success: bool)
    requires s.Valid() && |args| >= 3
    requires EffectSafe(s.Abs(), ApplySAdd(s.vals, args).effect)
    modifies s.Repr
    ensures s.Valid() && fresh(s.Repr - old(s.Repr))
    ensures Follows(s.Abs(), old(s.Abs()), ApplySAdd(old(s.vals), args), reply, success)
  {
    hide Store.Structure, EffectSafe, EvictToFit, SetMem, Total, Elements, ValueMem, Touch, Write, Append;
    s.NodesInRepr();
    var key := args[1];
    s.Found(key);
    var node := s.Find(key);
    if node != null {
      if !node.value.data.SetData? {
        return WrongType, false;
      }
      var created := AddToSet(s, node, args);
      return Integer(created), created > 0;
    }
    var created := CreateSet(s, key, args);
    return Integer(created), created > 0;
  }

  method CreateSet(s: Store, key: string, args: Command) returns (created: nat)
    requires s.Valid() && key !in s.vals && |args| >= 3
    modifies s.Repr
    ensures s.Valid() && fresh(s.Repr - old(s.Repr))
    ensures created == |{} + Elements(args[2..])|
    ensures s.Abs() == Settle(old(s.Abs()), Put(key, SetValue({} + Elements(args[2..]))))
  {
    hide Store.Structure, SetMem, Total, Elements, EvictToFit;
    s.NodesInRepr();
    SetMemEmpty();
    var elements, delta;
    elements, delta, created := AddElements({}, args);
    var added := s.Insert(key, DrutaValue(SetData(elements), 0, delta), SetValue(elements));
  }

  method AddToSet(s: Store, node: DrutaNode, args: Command) returns (created: nat)
    requires s.Valid() && node in s.nodes && node.value.data.SetData? && |args| >= 3
    requires node.key in s.vals && s.vals[node.key] == SetValue(node.value.data.elements)
    requires EffectSafe(s.Abs(), Put(node.key, SetValue(node.value.data.elements + Elements(args[2..]))))
    modifies s.Repr
    ensures s.Valid() && s.Repr == old(s.Repr)
    ensures var before := old(node.value.data.elements);
            var after := before + Elements(args[2..]);
            created == |after| - |before|
            && s.Abs() == Settle(old(s.Abs()), Put(node.key, SetValue(after)))
  {
    hide Store.Structure, EffectSafe, Settle, SetMem, Total, Elements;
    s.NodesInRepr();
    var elements, delta;
    elements, delta, created := AddElements(node.value.data.elements, args);
    Grow(s, node, SetData(elements), delta, SetValue(elements));
  }

  ghost function AddedUpTo(before: set<string>, args: Command, i: nat): set<string>
    requires 2 <= i <= |args|
  {
    before + Elements(args[2..i])
  }

  lemma AddedStep(before: set<string>, args: Command, i: nat)
    requires 2 <= i < |args|
    ensures AddedUpTo(before, args, i + 1) == AddedUpTo(before, args, i) + {args[i]}
  {
    assert args[2..i + 1] == args[2..i] + [args[i]];
  }

  lemma AddedEnds(before: set<string>, args: Command)
    requires |args| >= 2
    ensures AddedUpTo(before, args, 2) == before
    ensures AddedUpTo(before, args, |args|) == before + Elements(args[2..])
  {
    assert args[2..|args|] == args[2..];
  }

  method AddElements(before: set<string>, args: Command)
    returns (elements: set<string>, delta: nat, created: nat)
    requires |args| >= 3
    ensures elements == before + Elements(args[2..])
    ensures SetMem(elements) == SetMem(before) + delta && |elements| == |before| + created
  {
    hide SetMem, AddedUpTo, Elements;
    AddedEnds(before, args);
    elements, delta, created := before, 0, 0;
    for i := 2 to |args|
      invariant elements == AddedUpTo(before, args, i)
      invariant SetMem(elements) == SetMem(before) + delta && |elements| == |before| + created
    {
      AddedStep(before, args, i);
      if args[i] !in elements {
        SetMemAdd(elements, args[i]);
        elements := elements + {args[i]};
        delta := delta + (Cap(args[i]) + STRING_OBJECT + 8 * PTR_SIZE);
        created := created + 1;
      } else {
        assert elements + {args[i]} == elements;
      }
    }
  }

  method CommandSDel(s: Store, args: Command) returns (reply: Reply, success: bool)
    requires s.Valid() && Fits(s.vals) && |args| >= 3
    modifies s.Repr
    ensures s.Valid() && s.Repr == old(s.Repr)
    ensures Follows(s.Abs(), old(s.Abs()), ApplySDel(old(s.vals), args), reply, success)
  {
    hide Store.Structure, SetMem, Total, Elements, EvictToFit, ValueMem, Touch, Write, Append;
    s.NodesInRepr();
    s.Found(args[1]);
    var node := s.Find(args[1]);
    if node == null {
      return Failed, false;
    }
    if !node.value.data.SetData? {
      return WrongType, false;
    }
    var deleted := RemoveFromSet(s, node, args);
    return Integer(deleted), deleted > 0;
  }

  method RemoveFromSet(s: Store, node: DrutaNode, args: Command) returns (deleted: nat)
    requires s.Valid() && Fits(s.vals) && node in s.nodes && node.value.data.SetData? && |args| >= 3
    requires node.key in s.vals && s.vals[node.key] == SetValue(node.value.data.elements)
    modifies s.Repr
    ensures s.Valid() && s.Repr == old(s.Repr)
    ensures var before := old(node.value.data.elements);
            var after := before - Elements(args[2..]);
            deleted == |before| - |after|
            && s.Abs() == Settle(old(s.Abs()), Put(node.key, SetValue(after)))
  {
    hide Store.Structure, Total, Keys, Without, ValueMem, SetMem, Elements, EvictToFit;
    s.NodesInRepr();
    s.NodeListed(node);
    ghost var key := node.key;
    var elements, delta;
    elements, delta, deleted := RemoveElements(node.value.data.elements, args);
    ghost var v := SetValue(elements);
    SetShrinks(node.value.data.elements, elements, delta);
    TotalPut(s.vals, key, v);
    s.Assign(node, DrutaValue(SetData(elements), node.value.expiry, node.value.memoryUsage - delta), v);
    s.NotifyMemoryChange(delta, 0);
    ShrinkSettles(old(s.Abs()), key, v);
    ShrinkKeeps(old(s.Abs()), key, v);
    s.KeyListed(key);
    s.TouchLru(node);
  }

  lemma SetShrinks(before: set<string>, after: set<string>, delta: nat)
    requires SetMem(after) + delta == SetMem(before)
    ensures ValueMem(SetValue(after)) + delta == ValueMem(SetValue(before))
  {}

  lemma SetMemDrop(s: set<string>, e: string)
    requires e in s
    ensures SetMem(s) == SetMem(s - {e}) + ElementMem(e)
  {
    SetMemAdd(s - {e}, e);
    assert s - {e} + {e} == s;
  }

  ghost function LeftUpTo(before: set<string>, args: Command, i: nat): set<string>
    requires 2 <= i <= |args|
  {
    before - AddedUpTo({}, args, i)
  }

  lemma LeftStep(before: set<string>, args: Command, i: nat)
    requires 2 <= i < |args|
    ensures LeftUpTo(before, args, i + 1) == LeftUpTo(before, args, i) - {args[i]}
  {
    AddedStep({}, args, i);
  }

  lemma LeftEnds(before: set<string>, args: Command)
    requires |args| >= 2
    ensures LeftUpTo(before, args, 2) == before
    ensures LeftUpTo(before, args, |args|) == before - Elements(args[2..])
  {
    AddedEnds({}, args);
  }

  method RemoveElements(before: set<string>, args: Command)
    returns (elements: set<string>, delta: nat, deleted: nat)
    requires |args| >= 3
    ensures elements == before - Elements(args[2..])
    ensures SetMem(elements) + delta == SetMem(before) && |elements| + deleted == |before|
  {
    hide SetMem, LeftUpTo, Elements;
    LeftEnds(before, args);
    elements, delta, deleted := before, 0, 0;
    for i := 2 to |args|
      invariant elements == LeftUpTo(before, args, i)
      invariant SetMem(elements) + delta == SetMem(before) && |elements| + deleted == |before|
    {
      LeftStep(before, args, i);
      if args[i] in elements {
        SetMemDrop(elements, args[i]);
        delta := delta + (Cap(args[i]) + STRING_OBJECT + 8 * PTR_SIZE);
        elements := elements - {args[i]};
        deleted := deleted + 1;
      } else {
        assert elements - {args[i]} == elements;
      }
    }
  }

  // ---------- hashes ----------

  /** The set_hash loop over field and value arguments. */
  method WriteFields(h: DrutaHash, args: Command) returns (created: nat)
    requires h.Valid() && |args| >= 2 && |args| % 2 == 0
    modifies h`rep, h`memoryUsage
    ensures h.Valid() && h.rep == WriteAll(old(h.rep), Pairs(args[2..]))
    ensures created == CreatedCount(old(h.rep), Pairs(args[2..]))
  {
    created := 0;
    var i := 2;
    while i < |args|
      invariant 2 <= i <= |args| && i % 2 == 0
      invariant h.Valid()
      invariant WriteAll(h.rep, Pairs(args[i..])) == WriteAll(old(h.rep), Pairs(args[2..]))
      invariant created + CreatedCount(h.rep, Pairs(args[i..])) == CreatedCount(old(h.rep), Pairs(args[2..]))
    {
      hide HashMem, WellFormed, SetField, Fields, Pairs;
      ghost var rest := Pairs(args[i + 2..]);
      NextPair(args, i);
      assert Pairs(args[i..])[1..] == rest;
      var isNew := h.Set(args[i], args[i + 1]);
      if isNew {
        created := created + 1;
      }
      i := i + 2;
    }
  }

  lemma NextPair(args: Command, i: nat)
    requires i + 1 < |args|
    ensures Pairs(args[i..]) == [(args[i], args[i + 1])] + Pairs(args[i + 2..])
  {
    assert args[i..][2..] == args[i + 2..];
  }

  method DeleteFields(h: DrutaHash, args: Command) returns (deleted: nat)
    requires h.Valid() && |args| >= 2
    modifies h`rep, h`memoryUsage
    ensures h.Valid() && h.rep == DeleteAll(old(h.rep), args[2..])
    ensures deleted == DeletedCount(old(h.rep), args[2..])
    ensures HashMem(h.rep) <= HashMem(old(h.rep))
  {
    deleted := 0;
    for i := 2 to |args|
      invariant h.Valid()
      invariant DeleteAll(h.rep, args[i..]) == DeleteAll(old(h.rep), args[2..])
      invariant deleted + DeletedCount(h.rep, args[i..]) == DeletedCount(old(h.rep), args[2..])
      invariant HashMem(h.rep) <= HashMem(old(h.rep))
    {
      hide HashMem, WellFormed, DeleteField;
      assert args[i..][1..] == args[i + 1..];
      DeleteFrees(h.rep, args[i]);
      var found := h.Delete(args[i]);
      if found {
        deleted := deleted + 1;
      }
    }
  }

  lemma DeleteFrees(h: HashRep, field: string)
    requires WellFormed(h)
    ensures HashMem(DeleteField(h, field)) <= HashMem(h)
  {
    DeleteRefines(h, field);
    MemIsSum(h);
    MemIsSum(DeleteField(h, field));
    if field in Fields(h) {
      DropCosts(Fields(h), field, Overhead(h));
    } else {
      assert Fields(h) - {field} == Fields(h);
    }
  }

  /** The end of HSET and HDEL: the global count, eviction, and the touch. HDEL
      skips the first two when nothing was freed. */
  method SettleHash(s: Store, node: DrutaNode, oldMem: nat, newMem: nat, notify: bool,
                    ghost before: Db, ghost v: Value)
    requires s.Structure() && node in s.nodes && s.memory + newMem == Total(s.vals) + oldMem
    requires s.Abs() == Write(before, node.key, v) && node.key in EvictToFit(s.Abs()).vals
    requires !notify ==> oldMem == newMem && EvictToFit(s.Abs()) == s.Abs()
    modifies s.Repr
    ensures s.Valid() && s.Repr == old(s.Repr)
    ensures s.Abs() == Touch(EvictToFit(Write(before, node.key, v)), node.key)
  {
    hide Store.Structure, Total, Keys, EvictToFit, Touch;
    s.NodesInRepr();
    s.NodeListed(node);
    if notify {
      s.NotifyMemoryChange(oldMem, newMem);
    }
    s.KeyListed(node.key);
    s.TouchLru(node);
  }

  /** The body of HSET once the hash is at hand. */
  method WriteHash(s: Store, node: DrutaNode, hash: DrutaHash, args: Command) returns (created: nat)
    requires s.Valid() && node in s.nodes && node.value.data == HashData(hash)
    requires |args| >= 4 && |args| % 2 == 0
    requires node.key in s.vals && s.vals[node.key] == HashValue(hash.rep)
    requires node.key in
             EvictToFit(Write(s.Abs(), node.key, HashValue(WriteAll(hash.rep, Pairs(args[2..]))))).vals
    modifies s.Repr
    ensures s.Valid() && s.Repr == old(s.Repr)
    ensures created == CreatedCount(old(hash.rep), Pairs(args[2..]))
    ensures var v := HashValue(WriteAll(old(hash.rep), Pairs(args[2..])));
            s.Abs() == Touch(EvictToFit(Write(old(s.Abs()), node.key, v)), node.key)
  {
    hide Store.Linked, Indexed, Contents, Total, HashMem, WellFormed, Keys, Without, EvictToFit, WriteAll,
         CreatedCount, Pairs, Touch;
    s.NodesInRepr();
    s.Found(node.key);
    s.NodeListed(node);
    ghost var rest := s.index - {node.key};
    SplitContents(s.index, s.vals, s.Repr, node.key);
    ContentsKeys(s.index, s.vals, s.Repr);
    var oldMem := hash.memoryUsage;
    created := WriteFields(hash, args);
    var newMem := hash.memoryUsage;
    assert Owned(rest.Values) == old(Owned(rest.Values));
    assert forall h :: h in Owned(rest.Values) ==> h.rep == old(h.rep) && h.memoryUsage == old(h.memoryUsage);
    ghost var v := HashValue(hash.rep);
    TotalPut(s.vals, node.key, v);
    var usage := node.value.memoryUsage;
    usage := if newMem > oldMem then usage + (newMem - oldMem)
             else if oldMem > newMem then usage - (oldMem - newMem) else usage;
    s.Recount(node, usage, v);
    SettleHash(s, node, oldMem, newMem, true, old(s.Abs()), v);
  }

  method CommandHSet(s: Store, args: Command) returns (reply: Reply, success: bool)
    requires s.Valid() && |args| >= 4
    requires EffectSafe(s.Abs(), ApplyHSet(s.vals, args).effect)
    modifies s.Repr
    ensures s.Valid() && fresh(s.Repr - old(s.Repr))
    ensures Follows(s.Abs(), old(s.Abs()), ApplyHSet(old(s.vals), args), reply, success)
  {
    hide Store.Structure, EvictToFit, Total, WriteAll, CreatedCount, Touch, Write, Append, HashMem;
    s.NodesInRepr();
    if |args| % 2 != 0 {
      return Failed, false;
    }
    var key := args[1];
    s.Found(key);
    var node := s.Find(key);
    if node != null {
      if !node.value.data.HashData? {
        return WrongType, false;
      }
      var created := WriteHash(s, node, node.value.data.hash, args);
      return Integer(created), created > 0;
    }
    var created := CreateHash(s, key, args);
    return Integer(created), created > 0;
  }

  /** A new key gets an empty hash first, which may already evict others. */
  method CreateHash(s: Store, key: string, args: Command) returns (created: nat)
    requires s.Valid() && key !in s.vals && |args| >= 4 && |args| % 2 == 0
    requires EffectSafe(s.Abs(), Create(key, HashValue(EMPTY_HASH),
                                        HashValue(WriteAll(EMPTY_HASH, Pairs(args[2..])))))
    modifies s.Repr
    ensures s.Valid() && fresh(s.Repr - old(s.Repr))
    ensures created == CreatedCount(EMPTY_HASH, Pairs(args[2..]))
    ensures s.Abs() == Settle(old(s.Abs()), Create(key, HashValue(EMPTY_HASH),
                                                   HashValue(WriteAll(EMPTY_HASH, Pairs(args[2..])))))
  {
    hide Store.Structure, EvictToFit, Total, WriteAll, CreatedCount, Touch, Write, Append;
    s.NodesInRepr();
    var hash := new DrutaHash([]);
    var node := s.Insert(key, DrutaValue(HashData(hash), 0, 0), HashValue(EMPTY_HASH));
    s.KeyListed(key);
    s.Found(key);
    created := WriteHash(s, node, hash, args);
  }

  method CommandHDel(s: Store, args: Command) returns (reply: Reply, success: bool)
    requires s.Valid() && Fits(s.vals) && |args| >= 3
    modifies s.Repr
    ensures s.Valid() && s.Repr == old(s.Repr)
    ensures Follows(s.Abs(), old(s.Abs()), ApplyHDel(old(s.vals), args), reply, success)
  {
    hide Store.Structure, EvictToFit, Total, DeleteAll, DeletedCount, Touch, Write, Append, HashMem;
    s.NodesInRepr();
    s.Found(args[1]);
    var node := s.Find(args[1]);
    if node == null {
      return Integer(0), false;
    }
    if !node.value.data.HashData? {
      return WrongType, false;
    }
    var deleted := EraseFields(s, node, node.value.data.hash, args);
    return Integer(deleted), deleted > 0;
  }

  method EraseFields(s: Store, node: DrutaNode, hash: DrutaHash, args: Command) returns (deleted: nat)
    requires s.Valid() && Fits(s.vals) && node in s.nodes && node.value.data == HashData(hash)
    requires |args| >= 3
    requires node.key in s.vals && s.vals[node.key] == HashValue(hash.rep)
    modifies s.Repr
    ensures s.Valid() && s.Repr == old(s.Repr)
    ensures deleted == DeletedCount(old(hash.rep), args[2..])
    ensures s.Abs() == Settle(old(s.Abs()), Put(node.key, HashValue(DeleteAll(old(hash.rep), args[2..]))))
  {
    hide Store.Structure, Total, HashMem, Keys, Without, EvictToFit, DeleteAll, DeletedCount;
    s.NodesInRepr();
    ghost var before := s.Abs();
    ghost var v := HashValue(DeleteAll(hash.rep, args[2..]));
    var oldMem, newMem;
    deleted, oldMem, newMem := EraseAndRecount(s, node, hash, args);
    TotalPut(before.vals, node.key, v);
    ShrinkKeeps(before, node.key, v);
    SettleHash(s, node, oldMem, newMem, oldMem > newMem, before, v);
  }

  /** Fields erased and the node recounted; the global count does not know yet. */
  method EraseAndRecount(s: Store, node: DrutaNode, hash: DrutaHash, args: Command)
    returns (deleted: nat, oldMem: nat, newMem: nat)
    requires s.Valid() && node in s.nodes && node.value.data == HashData(hash)
    requires |args| >= 3
    requires node.key in s.vals && s.vals[node.key] == HashValue(hash.rep)
    modifies s.Repr
    ensures s.Structure() && s.Repr == old(s.Repr) && node in s.nodes
    ensures deleted == DeletedCount(old(hash.rep), args[2..])
    ensures var v := HashValue(DeleteAll(old(hash.rep), args[2..]));
            s.Abs() == Write(old(s.Abs()), node.key, v) && newMem == ValueMem(v)
    ensures oldMem == ValueMem(old(s.vals)[node.key]) && newMem <= oldMem
    ensures s.memory == old(s.memory)
  {
    hide Store.Linked, Indexed, Contents, Total, HashMem, WellFormed, Keys, Without, DeleteAll, DeletedCount;
    s.NodesInRepr();
    s.Found(node.key);
    s.NodeListed(node);
    ghost var rest := s.index - {node.key};
    SplitContents(s.index, s.vals, s.Repr, node.key);
    ContentsKeys(s.index, s.vals, s.Repr);
    oldMem := hash.memoryUsage;
    deleted := DeleteFields(hash, args);
    newMem := hash.memoryUsage;
    assert Owned(rest.Values) == old(Owned(rest.Values));
    assert forall h :: h in Owned(rest.Values) ==> h.rep == old(h.rep) && h.memoryUsage == old(h.memoryUsage);
    ghost var v := HashValue(hash.rep);
    s.Recount(node, node.value.memoryUsage - (oldMem - newMem), v);
  }

  method CommandHGet(s: Store, key: string, field: string) returns (reply: Reply)
    requires s.Valid()
    modifies s.Repr
    ensures s.Valid() && s.Repr == old(s.Repr)
    ensures Follows(s.Abs(), old(s.Abs()), ApplyHGet(old(s.vals), key, field), reply, false)
  {
    hide Store.Structure, Total, Touch, Fields, HashMem, WellFormed;
    s.NodesInRepr();
    s.Found(key);
    var node := s.Find(key);
    if node == null {
      return NilBulk;
    }
    if !node.value.data.HashData? {
      return WrongType;
    }
    var found := node.value.data.hash.Get(field);
    if found == None {
      return NilBulk;
    }
    s.TouchLru(node);
    return Bulk(found.value);
  }

  /** The part of LRANGE, LLEN and HGETALL that changes the store. */
  method RefreshIf(s: Store, key: string, lists: bool)
    requires s.Valid()
    modifies s.Repr
    ensures s.Valid() && s.Repr == old(s.Repr)
    ensures var v := old(s.vals);
            var found := key in v && (if lists then v[key].ListValue? else v[key].HashValue?);
            s.Abs() == Settle(old(s.Abs()), if found then Bump(key) else Keep)
  {
    hide Store.Structure, Total, Touch;
    s.NodesInRepr();
    s.Found(key);
    var node := s.Find(key);
    if node != null && (if lists then node.value.data.ListData? else node.value.data.HashData?) {
      s.TouchLru(node);
    }
  }

  // ---------- dispatch ----------

  lemma SettlesTrivially(db: Db)
    ensures Settle(db, Keep) == db && Settle(db, Wipe) == EMPTY
  {}

  /** The if-chain of handle_command over everything that touches the store. */
  method Execute(s: Store, args: Command, now: int) returns (reply: Reply, success: bool)
    requires s.Valid() && Fits(s.vals) && args != [] && Safe(s.Abs(), args, now)
    modifies s.Repr
    ensures s.Valid() && fresh(s.Repr - old(s.Repr)) && Fits(s.vals)
    ensures Outcome(s.Abs(), reply, success) == Exec(old(s.Abs()), args, now)
  {
    hide Store.Structure, Settle, EffectSafe, Total, ApplySet, ApplyGet, ApplyPush, ApplyPop, ApplyDel,
         ApplyHSet, ApplyHGet, ApplyHDel, ApplySAdd, ApplySDel;
    s.NodesInRepr();
    s.AbsConsistent();
    ExecKeepsCeiling(s.Abs(), args, now);
    SettlesTrivially(s.Abs());
    var cmd := UpperCase(args[0]);
    reply, success := Elsewhere, false;
    match Decode(cmd, |args|) {
      case OpSet => reply, success := CommandSet(s, args, now);
      case OpGet => reply := CommandGet(s, args[1], now);
      case OpRPush => reply, success := GenericPush(s, args, false);
      case OpLPush => reply, success := GenericPush(s, args, true);
      case OpLRange => RefreshIf(s, args[1], true);
      case OpLPop => reply, success := GenericPop(s, args, true);
      case OpRPop => reply, success := GenericPop(s, args, false);
      case OpDel => reply, success := CommandDel(s, args[1..]);
      case OpLLen => RefreshIf(s, args[1], true);
      case OpHSet => reply, success := CommandHSet(s, args);
      case OpHGet => reply := CommandHGet(s, args[1], args[2]);
      case OpHGetAll => RefreshIf(s, args[1], false);
      case OpHDel => reply, success := CommandHDel(s, args);
      case OpSAdd => reply, success := CommandSAdd(s, args);
      case OpSDel => reply, success := CommandSDel(s, args);
      case OpFlushDb =>
        if |args| < 2 || args[1] != "--sure" {
          reply := Failed;
        } else {
          Flush(s);
          reply, success := Done, true;
        }
      case OpOther =>
    }
  }
}
