/** Pushing items and popping as many from the same end gives them back, last
    pushed first, and leaves everything as it was. */
module Lists {
  import opened Text
  import opened Keyspace
  import opened Commands

  function PushCommand(k: string, items: seq<string>, front: bool): Command {
    [if front then "LPUSH" else "RPUSH", k] + items
  }

  function PopCommand(k: string, n: nat, front: bool): Command {
    [if front then "LPOP" else "RPOP", k, ToString(n)]
  }

  lemma Names(k: string, items: seq<string>, n: nat, front: bool)
    requires items != []
    ensures OpOf(PushCommand(k, items, front)) == if front then OpLPush else OpRPush
    ensures OpOf(PopCommand(k, n, front)) == if front then OpLPop else OpRPop
  {
    hide ToString;
    assert ToUpper("LPUSH") == "LPUSH" && ToUpper("RPUSH") == "RPUSH";
    assert ToUpper("LPOP") == "LPOP" && ToUpper("RPOP") == "RPOP";
  }

  lemma {:induction false} ReverseLength(s: seq<string>)
    ensures |Reverse(s)| == |s|
  {
    if s != [] { ReverseLength(s[1..]); }
  }

  lemma TakenBack(items: seq<string>, added: seq<string>, front: bool)
    ensures var all := PushAll(items, added, front);
            |all| == |items| + |added| && TakeItems(all, |added|, front) == (Reverse(added), items)
  {
    var all := PushAll(items, added, front);
    ReverseLength(added);
    if front {
      PushedFront(items, added);
      assert all[..|added|] == Reverse(added) && all[|added|..] == items;
    } else {
      PushedBack(items, added);
      assert all[|all| - |added|..] == added && all[..|all| - |added|] == items;
    }
  }

  /** For an existing list, when the pushed items fit: the pop replies with them in
      reverse argument order, every value is as before, so the bytes of the node
      and of the whole store are too, and the key is the most recent one. */
  lemma PushThenPop(db: Db, k: string, added: seq<string>, front: bool, t: int, u: int)
    requires Consistent(db) && Fits(db.vals) && k in db.vals && db.vals[k].ListValue?
    requires 0 < |added| <= INT_MAX
    requires Fits(db.vals[k := ListValue(PushAll(db.vals[k].items, added, front))])
    ensures var pushed := Exec(db, PushCommand(k, added, front), t);
            var popped := Exec(pushed.db, PopCommand(k, |added|, front), u);
            pushed.success && popped.success && popped.reply == Items(Reverse(added))
            && popped.db.vals == db.vals && Total(popped.db.vals) == Total(db.vals)
            && popped.db == Touch(db, k)
  {
    hide PushAll, Total, OpOf, Reverse, TakeItems, Without;
    var items := db.vals[k].items;
    var all := PushAll(items, added, front);
    Names(k, added, |added|, front);
    TakenBack(items, added, front);
    assert PushCommand(k, added, front)[2..] == added;
    StoiToString(|added|);
    var push, pop := PushCommand(k, added, front), PopCommand(k, |added|, front);
    assert Apply(db.vals, push, t).effect == Put(k, ListValue(all));
    var mid := Touch(Write(db, k, ListValue(all)), k);
    assert Exec(db, push, t).db == mid;
    assert PopCount(pop) == |added|;
    assert Apply(mid.vals, pop, u) == Applied(Put(k, ListValue(items)), Items(Reverse(added)), true);
    assert Write(mid, k, ListValue(items)).vals == db.vals;
    TouchTwice(db, k);
  }

  lemma TouchTwice(db: Db, k: string)
    requires Consistent(db) && k in db.vals
    ensures Touch(Touch(db, k), k) == Touch(db, k)
  {
    TouchConsistent(db, k);
    WithoutIs(db.order, k);
    var order := Touch(db, k).order;
    WithoutAt(order, |order| - 1);
    assert order[..|order| - 1] + order[|order|..] == Without(db.order, k);
  }
}
