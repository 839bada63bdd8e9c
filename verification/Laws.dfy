/** What clients may rely on, command by command: for each name, spelled in any way,
    what is stored afterwards and what is replied, in terms of the values alone. */
module Laws {
  import opened Text
  import opened Costs
  import opened Hash
  import opened Keyspace
  import opened Commands
  import opened Resp
  import opened Aof
  import opened Durability

  // ---------- names ----------

  predicate Capitals(name: string) {
    forall i :: 0 <= i < |name| ==> 'A' <= name[i] <= 'Z'
  }

  /** The name, some of its letters in lower case. */
  predicate Spells(spelled: string, name: string) {
    && |spelled| == |name|
    && forall i :: 0 <= i < |name| ==> spelled[i] == name[i] || spelled[i] as int == name[i] as int + 32
  }

  lemma SpellsIff(spelled: string, name: string)
    requires Capitals(name)
    ensures Spells(spelled, name) <==> ToUpper(spelled) == name
  {
    if ToUpper(spelled) == name {
      forall i | 0 <= i < |name| ensures spelled[i] == name[i] || spelled[i] as int == name[i] as int + 32 {
        assert ToUpper(spelled)[i] == name[i];
      }
    }
  }

  /** What a name with so many arguments leads to. */
  lemma Dispatch(args: Command)
    requires args != []
    ensures args[0] == "SET" && |args| >= 3 ==> OpOf(args) == OpSet
    ensures args[0] == "GET" && |args| == 2 ==> OpOf(args) == OpGet
    ensures args[0] == "RPUSH" && |args| >= 3 ==> OpOf(args) == OpRPush
    ensures args[0] == "LPUSH" && |args| >= 3 ==> OpOf(args) == OpLPush
    ensures args[0] == "LRANGE" && |args| == 4 ==> OpOf(args) == OpLRange
    ensures args[0] == "LPOP" && |args| >= 2 ==> OpOf(args) == OpLPop
    ensures args[0] == "RPOP" && |args| >= 2 ==> OpOf(args) == OpRPop
    ensures args[0] == "DEL" && |args| >= 2 ==> OpOf(args) == OpDel
    ensures args[0] == "LLEN" && |args| == 2 ==> OpOf(args) == OpLLen
    ensures args[0] == "HSET" && |args| >= 4 ==> OpOf(args) == OpHSet
    ensures args[0] == "HGET" && |args| == 3 ==> OpOf(args) == OpHGet
    ensures args[0] == "HGETALL" && |args| == 2 ==> OpOf(args) == OpHGetAll
    ensures args[0] == "HDEL" && |args| >= 3 ==> OpOf(args) == OpHDel
    ensures args[0] == "SADD" && |args| >= 3 ==> OpOf(args) == OpSAdd
    ensures args[0] == "SDEL" && |args| >= 3 ==> OpOf(args) == OpSDel
    ensures args[0] == "FLUSHDB" ==> OpOf(args) == OpFlushDb
  {
    AsWritten(args[0]);
    hide ToUpper;
  }

  lemma AsWritten(name: string)
    ensures Capitals(name) ==> ToUpper(name) == name
  {}

  lemma {:induction false} SameOptions(a: Command, b: Command, i: nat, e: int, now: int)
    requires i >= 1 && |a| == |b| && forall j :: i <= j < |a| ==> a[j] == b[j]
    ensures ParseExpiry(a, i, e, now) == ParseExpiry(b, i, e, now)
    decreases |a| - i
  {
    hide ToUpper, Stoll;
    if i < |a| {
      var opt := ToUpper(a[i]);
      if (opt == "EX" || opt == "PX" || opt == "PXAT") && i + 1 < |a| {
        match Stoll(a[i + 1])
        case None =>
        case Some(n) =>
          SameOptions(a, b, i + 2, if opt == "EX" then now + n * 1000 else if opt == "PX" then now + n else n, now);
      } else {
        SameOptions(a, b, i + 1, e, now);
      }
    }
  }

  lemma SameArguments(a: Command, b: Command, vals: Values, now: int)
    requires OpOf(a) == OpOf(b) && a != [] && b != [] && a[1..] == b[1..]
    ensures Apply(vals, a, now) == Apply(vals, b, now)
  {
    hide OpOf, ParseExpiry, PushAll, TakeItems, WriteAll, DeleteAll, CreatedCount, DeletedCount, Pairs, Elements,
         PresentCount, Fields, Stoi;
    assert |a| == |a[1..]| + 1 && |b| == |b[1..]| + 1;
    assert forall i :: 1 <= i < |a| ==> a[i] == a[1..][i - 1] && b[i] == b[1..][i - 1];
    if |a| >= 2 { assert a[2..] == a[1..][1..] && b[2..] == b[1..][1..]; }
    SameOptions(a, b, 3, 0, now);
    Arguments(a);
    Arguments(b);
  }

  lemma Arguments(args: Command)
    ensures OpOf(args) in {OpSet, OpRPush, OpLPush, OpHDel, OpSAdd, OpSDel, OpHGet} ==> |args| >= 3
    ensures OpOf(args) in {OpLPop, OpRPop, OpDel, OpGet, OpLLen, OpHGetAll, OpLRange} ==> |args| >= 2
    ensures OpOf(args) == OpHSet ==> |args| >= 4
  {
    hide ToUpper;
  }

  /** However a name is spelled, the command does and replies the same. */
  lemma SpellingIgnored(db: Db, spelled: string, name: string, rest: seq<string>, now: int)
    requires Capitals(name) && Spells(spelled, name)
    ensures Exec(db, [spelled] + rest, now) == Exec(db, [name] + rest, now)
  {
    hide Apply, Settle;
    SpellsIff(spelled, name);
    AsWritten(name);
    var a, b := [spelled] + rest, [name] + rest;
    assert a[1..] == rest == b[1..];
    SameArguments(a, b, db.vals, now);
  }

  // ---------- how one key changes ----------

  /** The store after k has been given the value v. Where everything fits, nothing else
      changes but that k is the most recent key; otherwise keys may be missing, but none
      holds anything else than before. */
  ghost predicate Stored(db: Db, after: Db, k: string, v: Value) {
    && (Fits(db.vals[k := v]) ==> after == Db(Without(db.order, k) + [k], db.vals[k := v]))
    && (forall j :: j in after.vals && j != k ==> j in db.vals && after.vals[j] == db.vals[j])
    && (k in after.vals ==> after.vals[k] == v && Newest(after, k))
  }

  lemma StoredPut(db: Db, k: string, v: Value)
    requires Consistent(db) && ValueOk(v)
    ensures Stored(db, Settle(db, Put(k, v)), k, v)
  {
    hide Total, EvictToFit, Consistent;
    SettlesWithin(db, Put(k, v));
    PutOrder(db, k, v);
  }

  lemma PutOrder(db: Db, k: string, v: Value)
    requires Consistent(db) && ValueOk(v)
    ensures var after := Settle(db, Put(k, v));
            && (k in after.vals ==> Newest(after, k))
            && (Fits(db.vals[k := v]) ==> after == Db(Without(db.order, k) + [k], db.vals[k := v]))
  {
    hide Total, Consistent;
    AbsentStays(db, k);
    var grown := Append(db, k, v);
    if k !in db.vals && k in EvictToFit(grown).vals {
      NewKeyIsLast(db, k, v);
    }
    assert Fits(db.vals[k := v]) ==> EvictToFit(grown) == grown && EvictToFit(Write(db, k, v)) == Write(db, k, v);
  }

  lemma AbsentStays(db: Db, k: string)
    requires Consistent(db)
    ensures k !in db.vals ==> Without(db.order, k) == db.order && Without(db.order + [k], k) == db.order
  {
    WithoutIs(db.order, k);
    if k !in db.vals {
      WithoutAt(db.order + [k], |db.order|);
      assert (db.order + [k])[..|db.order|] + (db.order + [k])[|db.order| + 1..] == db.order;
    }
  }

  lemma StoredCreate(db: Db, k: string, v: Value)
    requires Consistent(db) && ValueOk(v) && k !in db.vals
    ensures Stored(db, Settle(db, Create(k, HashValue(EMPTY_HASH), v)), k, v)
  {
    hide Total, EvictToFit, Consistent, Without;
    var seed := HashValue(EMPTY_HASH);
    SettlesWithin(db, Create(k, seed, v));
    AbsentStays(db, k);
    var first := EvictToFit(Append(db, k, seed));
    if Fits(db.vals[k := v]) {
      CreateSettlesPlainly(db, k, seed, v);
      assert Write(first, k, v) == Db(db.order + [k], db.vals[k := v]);
      FitsAsIs(Write(first, k, v));
    }
  }

  lemma FitsAsIs(db: Db)
    requires Fits(db.vals)
    ensures EvictToFit(db) == db
  {
    hide Total;
  }

  /** In a store that fits, a value that costs no more than the old one evicts nothing. */
  lemma StoredSmaller(db: Db, k: string, v: Value)
    requires Consistent(db) && Fits(db.vals) && ValueOk(v) && k in db.vals && ValueMem(v) <= ValueMem(db.vals[k])
    ensures Settle(db, Put(k, v)) == Db(Without(db.order, k) + [k], db.vals[k := v])
  {
    hide Total, ValueMem, Settle;
    TotalPut(db.vals, k, v);
    StoredPut(db, k, v);
  }

  // ---------- SET ----------

  /** SET's arguments after the text: a time with its number, or a word that is no time
      unit and means nothing. */
  datatype SetOption = Time(unit: string, number: string) | Ignored(word: string)

  predicate IsUnit(word: string) {
    Spells(word, "EX") || Spells(word, "PX") || Spells(word, "PXAT")
  }

  predicate WellRead(opts: seq<SetOption>) {
    forall i :: 0 <= i < |opts| ==>
      match opts[i]
      case Time(unit, number) => IsUnit(unit) && Stoll(number).Some?
      case Ignored(word) => !IsUnit(word)
  }

  function Words(opts: seq<SetOption>): seq<string> {
    if opts == [] then []
    else (match opts[0] case Time(unit, number) => [unit, number] case Ignored(word) => [word]) + Words(opts[1..])
  }

  lemma UnitIff(word: string)
    ensures IsUnit(word) <==> ToUpper(word) == "EX" || ToUpper(word) == "PX" || ToUpper(word) == "PXAT"
    ensures Spells(word, "EX") <==> ToUpper(word) == "EX"
    ensures Spells(word, "PX") <==> ToUpper(word) == "PX"
  {
    SpellsIff(word, "EX");
    SpellsIff(word, "PX");
    SpellsIff(word, "PXAT");
  }

  lemma ReadTime(args: Command, i: nat, e: int, now: int)
    requires i + 1 < |args| && IsUnit(args[i]) && Stoll(args[i + 1]).Some?
    ensures var n := Stoll(args[i + 1]).value;
            var f := if Spells(args[i], "EX") then now + 1000 * n else if Spells(args[i], "PX") then now + n else n;
            ParseExpiry(args, i, e, now) == ParseExpiry(args, i + 2, f, now)
  {
    hide ToUpper, Stoll, IsUnit, Spells;
    UnitIff(args[i]);
  }

  lemma ReadWord(args: Command, i: nat, e: int, now: int)
    requires i < |args| && (!IsUnit(args[i]) || i + 1 == |args|)
    ensures ParseExpiry(args, i, e, now) == ParseExpiry(args, i + 1, e, now)
  {
    hide ToUpper, Stoll, IsUnit;
    UnitIff(args[i]);
  }

  /** Options that can be read are read and passed by. */
  lemma {:induction false} PassOptions(args: Command, i: nat, opts: seq<SetOption>, rest: seq<string>, e: int, now: int)
    returns (f: int)
    requires i <= |args| && args[i..] == Words(opts) + rest && WellRead(opts)
    ensures i + |Words(opts)| <= |args|
    ensures ParseExpiry(args, i, e, now) == ParseExpiry(args, i + |Words(opts)|, f, now)
    ensures (forall j :: 0 <= j < |opts| ==> opts[j].Ignored?) ==> f == e
    decreases |opts|
  {
    hide ParseExpiry, Stoll, IsUnit, Spells;
    f := e;
    if opts != [] {
      var more := Words(opts[1..]);
      match opts[0] {
        case Time(unit, number) =>
          assert Words(opts) == [unit, number] + more;
          assert args[i] == args[i..][0] == unit && args[i + 1] == args[i..][1] == number;
          assert args[i + 2..] == args[i..][2..] == more + rest;
          ReadTime(args, i, e, now);
          var n := Stoll(number).value;
          f := if Spells(unit, "EX") then now + 1000 * n else if Spells(unit, "PX") then now + n else n;
          f := PassOptions(args, i + 2, opts[1..], rest, f, now);
        case Ignored(word) =>
          assert Words(opts) == [word] + more;
          assert args[i] == args[i..][0] == word;
          assert args[i + 1..] == args[i..][1..] == more + rest;
          ReadWord(args, i, e, now);
          f := PassOptions(args, i + 1, opts[1..], rest, e, now);
      }
    }
  }

  /** Words that take no part: none is a time unit, but for one that has nothing after
      it. */
  predicate TakesNoPart(words: seq<string>) {
    forall i :: 0 <= i < |words| - 1 ==> !IsUnit(words[i])
  }

  lemma {:induction false} PassWords(args: Command, i: nat, words: seq<string>, e: int, now: int)
    requires i <= |args| && args[i..] == words && TakesNoPart(words)
    ensures ParseExpiry(args, i, e, now) == Some(e)
    decreases |words|
  {
    if words != [] {
      hide ParseExpiry, IsUnit;
      assert args[i] == args[i..][0];
      assert args[i + 1..] == args[i..][1..];
      ReadWord(args, i, e, now);
      PassWords(args, i + 1, words[1..], e, now);
    }
  }

  /** The last time option that takes part decides: seconds from now, milliseconds from
      now, or a time. */
  lemma SetWithTime(db: Db, k: string, text: string, before: seq<SetOption>, unit: string, n: int,
                    after: seq<string>, now: int)
    requires Consistent(db) && WellRead(before) && IsUnit(unit) && TakesNoPart(after)
    requires LLONG_MIN <= n <= LLONG_MAX
    ensures var out := Exec(db, ["SET", k, text] + Words(before) + [unit, ToString(n)] + after, now);
            var e := if Spells(unit, "EX") then now + 1000 * n else if Spells(unit, "PX") then now + n else n;
            Stored(db, out.db, k, StringValue(text, e)) && out.reply == Done && out.success
  {
    hide ToUpper, OpOf, Spells, IsUnit, ToString, Settle, Stored;
    var args := ["SET", k, text] + Words(before) + [unit, ToString(n)] + after;
    Dispatch(args);
    assert args[3..] == Words(before) + ([unit, ToString(n)] + after);
    var f := PassOptions(args, 3, before, [unit, ToString(n)] + after, 0, now);
    var i := 3 + |Words(before)|;
    assert args[i] == unit && args[i + 1] == ToString(n);
    assert args[i + 2..] == after;
    ReadToString(n);
    ReadTime(args, i, f, now);
    var e := if Spells(unit, "EX") then now + 1000 * n else if Spells(unit, "PX") then now + n else n;
    PassWords(args, i + 2, after, e, now);
    StoredPut(db, k, StringValue(text, e));
  }

  /** Without a time option the string is everlasting. */
  lemma SetWithoutTime(db: Db, k: string, text: string, words: seq<string>, now: int)
    requires Consistent(db) && TakesNoPart(words)
    ensures var out := Exec(db, ["SET", k, text] + words, now);
            Stored(db, out.db, k, StringValue(text, 0)) && out.reply == Done && out.success
  {
    hide ToUpper, OpOf, Settle, Stored, ParseExpiry, TakesNoPart;
    var args := ["SET", k, text] + words;
    Dispatch(args);
    assert args[3..] == words;
    PassWords(args, 3, words, 0, now);
    StoredPut(db, k, StringValue(text, 0));
  }

  /** A number that cannot be read refuses the SET, which then changes nothing. */
  lemma SetRefused(db: Db, k: string, text: string, before: seq<SetOption>, unit: string, number: string,
                   after: seq<string>, now: int)
    requires WellRead(before) && IsUnit(unit) && Stoll(number) == None
    ensures Exec(db, ["SET", k, text] + Words(before) + [unit, number] + after, now) == Outcome(db, Failed, false)
  {
    hide ToUpper, OpOf, Spells, IsUnit, Stoll;
    var args := ["SET", k, text] + Words(before) + [unit, number] + after;
    Dispatch(args);
    assert args[3..] == Words(before) + ([unit, number] + after);
    var f := PassOptions(args, 3, before, [unit, number] + after, 0, now);
    var i := 3 + |Words(before)|;
    assert args[i] == unit && args[i + 1] == number;
    UnitIff(unit);
  }

  // ---------- GET ----------

  /** GET replies with the text of a string whose time has not passed, and the key is
      then the most recent; a string whose time has passed goes; no other key does. */
  lemma GetLaw(db: Db, k: string, now: int)
    ensures var out := Exec(db, ["GET", k], now);
            && !out.success
            && (k !in db.vals ==> out.db == db && out.reply == NilBulk)
            && (k in db.vals ==>
                  if !db.vals[k].StringValue? then out.db == db && out.reply == WrongType
                  else
                    var e := db.vals[k].expiry;
                    if e == 0 || now <= e then
                      out.db == Db(Without(db.order, k) + [k], db.vals) && out.reply == Bulk(db.vals[k].text)
                    else out.db == Db(Without(db.order, k), db.vals - {k}) && out.reply == NilBulk)
  {
    hide ToUpper, OpOf, Without;
    Dispatch(["GET", k]);
    assert RemoveAll(Remove(db, k), [k][1..]) == Remove(db, k);
  }

  /** What SET with so many seconds stores, GET replies with until they have passed. */
  lemma SetThenGet(db: Db, k: string, text: string, n: int, now: int, later: int)
    requires Consistent(db) && LLONG_MIN <= n <= LLONG_MAX
    requires k in Exec(db, ["SET", k, text, "EX", ToString(n)], now).db.vals && now + 1000 * n != 0
    ensures var after := Exec(db, ["SET", k, text, "EX", ToString(n)], now).db;
            Exec(after, ["GET", k], later).reply == if later <= now + 1000 * n then Bulk(text) else NilBulk
  {
    hide Exec, ToString, Without;
    assert ["SET", k, text] + Words([]) + ["EX", ToString(n)] + [] == ["SET", k, text, "EX", ToString(n)];
    SetWithTime(db, k, text, [], "EX", n, [], now);
    GetLaw(Exec(db, ["SET", k, text, "EX", ToString(n)], now).db, k, later);
  }

  /** What a plain SET stores, GET replies with for good. */
  lemma PlainSetThenGet(db: Db, k: string, text: string, now: int, later: int)
    requires Consistent(db) && k in Exec(db, ["SET", k, text], now).db.vals
    ensures Exec(Exec(db, ["SET", k, text], now).db, ["GET", k], later).reply == Bulk(text)
  {
    hide Exec, Without;
    assert ["SET", k, text] + [] == ["SET", k, text];
    SetWithoutTime(db, k, text, [], now);
    GetLaw(Exec(db, ["SET", k, text], now).db, k, later);
  }

  // ---------- lists ----------

  function Mirrored(s: seq<string>): seq<string> {
    seq(|s|, i requires 0 <= i < |s| => s[|s| - 1 - i])
  }

  lemma {:induction false} ReverseIs(s: seq<string>)
    ensures Reverse(s) == Mirrored(s)
  {
    if s != [] { ReverseIs(s[1..]); }
  }

  /** A push puts the arguments at its end of the list, each in front of or behind those
      before it, and replies with the new length; a key that holds no list refuses. */
  lemma PushLaw(db: Db, k: string, added: seq<string>, front: bool, now: int)
    requires Consistent(db) && added != []
    ensures var out := Exec(db, [if front then "LPUSH" else "RPUSH", k] + added, now);
            if k in db.vals && !db.vals[k].ListValue? then out == Outcome(db, WrongType, false)
            else
              var items := if k in db.vals then db.vals[k].items else [];
              && Stored(db, out.db, k, ListValue(if front then Mirrored(added) + items else items + added))
              && out.reply == Integer(|items| + |added|) && out.success
  {
    hide OpOf, Settle, Stored, PushAll, Mirrored, Reverse;
    var args := [if front then "LPUSH" else "RPUSH", k] + added;
    Dispatch(args);
    assert args[2..] == added;
    var items := if k in db.vals && db.vals[k].ListValue? then db.vals[k].items else [];
    var pushed := if front then Mirrored(added) + items else items + added;
    assert Apply(db.vals, args, now) ==
           (if k in db.vals && !db.vals[k].ListValue? then Applied(Keep, WrongType, false)
            else Applied(Put(k, ListValue(pushed)), Integer(|pushed|), true)) by {
      PushedFront(items, added);
      PushedBack(items, added);
      ReverseIs(added);
    }
    KeepIsKeep(db);
    PushedFront(items, added);
    PushedBack(items, added);
    ReverseIs(added);
    MirroredLength(added);
    StoredPut(db, k, ListValue(if front then Mirrored(added) + items else items + added));
  }

  lemma MirroredLength(s: seq<string>)
    ensures |Mirrored(s)| == |s|
  {}

  lemma KeepIsKeep(db: Db)
    ensures Settle(db, Keep) == db
  {}

  /** How many items a pop is asked for: one if it names no number. */
  predicate Asks(rest: seq<string>, n: nat) {
    if rest == [] then n == 1
    else |rest| == 1 && if Stoi(rest[0]) == None then n == 1 else n == Stoi(rest[0]).value
  }

  /** A pop takes that many items from its end of the list, or all there are, and replies
      with them in the order in which they came out. */
  lemma PopLaw(db: Db, k: string, rest: seq<string>, n: nat, front: bool, now: int)
    requires Consistent(db) && Fits(db.vals) && Asks(rest, n)
    ensures var out := Exec(db, [if front then "LPOP" else "RPOP", k] + rest, now);
            if k !in db.vals then out == Outcome(db, Items([]), false)
            else if !db.vals[k].ListValue? then out == Outcome(db, WrongType, false)
            else
              var items := db.vals[k].items;
              var m := if n < |items| then n else |items|;
              var (taken, left) := if front then (items[..m], items[m..])
                                   else (Mirrored(items[|items| - m..]), items[..|items| - m]);
              out == Outcome(Db(Without(db.order, k) + [k], db.vals[k := ListValue(left)]), Items(taken), true)
  {
    hide Apply, Settle, Mirrored, Without, Asks, ListMem;
    var args := [if front then "LPOP" else "RPOP", k] + rest;
    PopEffect(db.vals, k, rest, n, front, now);
    KeepIsKeep(db);
    if k in db.vals && db.vals[k].ListValue? {
      var items := db.vals[k].items;
      var m := if n < |items| then n else |items|;
      PartCosts(items, m);
      PartCosts(items, |items| - m);
      StoredSmaller(db, k, ListValue(if front then items[m..] else items[..|items| - m]));
    }
  }

  lemma PopEffect(vals: Values, k: string, rest: seq<string>, n: nat, front: bool, now: int)
    requires Asks(rest, n)
    ensures var a := Apply(vals, [if front then "LPOP" else "RPOP", k] + rest, now);
            if k !in vals then a == Applied(Keep, Items([]), false)
            else if !vals[k].ListValue? then a == Applied(Keep, WrongType, false)
            else
              var items := vals[k].items;
              var m := if n < |items| then n else |items|;
              if front then a == Applied(Put(k, ListValue(items[m..])), Items(items[..m]), true)
              else a == Applied(Put(k, ListValue(items[..|items| - m])), Items(Mirrored(items[|items| - m..])), true)
  {
    hide OpOf, Mirrored, Reverse, Stoi;
    var args := [if front then "LPOP" else "RPOP", k] + rest;
    Dispatch(args);
    assert args[2..] == rest;
    if |rest| == 1 { assert args[2] == rest[0]; }
    assert PopCount(args) == n;
    if k in vals && vals[k].ListValue? {
      var items := vals[k].items;
      var m := if n < |items| then n else |items|;
      ReverseIs(items[|items| - m..]);
      assert Popped(args, |items|) == m;
    }
  }

  lemma PartCosts(items: seq<string>, m: nat)
    requires m <= |items|
    ensures ListMem(items[m..]) <= ListMem(items) && ListMem(items[..m]) <= ListMem(items)
  {
    ListMemConcat(items[..m], items[m..]);
    assert items[..m] + items[m..] == items;
  }

  /** A pop with more arguments than that is refused. */
  lemma PopRefused(db: Db, k: string, rest: seq<string>, front: bool, now: int)
    requires |rest| > 1
    ensures Exec(db, [if front then "LPOP" else "RPOP", k] + rest, now) == Outcome(db, Failed, false)
  {
    hide OpOf;
    Dispatch([if front then "LPOP" else "RPOP", k] + rest);
  }

  // ---------- hashes ----------

  /** The fields after these have been written, one after the other: a field named
      keeps the last value given for it, and all others stay. */
  ghost predicate Written(m: map<string, string>, after: map<string, string>, pairs: seq<Pair>) {
    && (forall i :: 0 <= i < |pairs| && LastOf(pairs, i) ==>
          pairs[i].0 in after && after[pairs[i].0] == pairs[i].1)
    && (forall f :: !Named(pairs, f) ==> (f in after <==> f in m) && (f in m && f in after ==> after[f] == m[f]))
  }

  predicate Named(pairs: seq<Pair>, f: string) {
    exists i :: 0 <= i < |pairs| && pairs[i].0 == f
  }

  predicate LastOf(pairs: seq<Pair>, i: nat)
    requires i < |pairs|
  {
    forall j :: i < j < |pairs| ==> pairs[j].0 != pairs[i].0
  }

  lemma {:induction false} OverlayWrites(m: map<string, string>, pairs: seq<Pair>)
    ensures Written(m, Overlay(m, pairs), pairs)
    decreases |pairs|
  {
    if pairs != [] {
      var rest := pairs[1..];
      var n := m[pairs[0].0 := pairs[0].1];
      OverlayWrites(n, rest);
      var after := Overlay(m, pairs);
      assert forall i :: 1 <= i < |pairs| ==> pairs[i] == rest[i - 1];
      forall i | 0 <= i < |pairs| && LastOf(pairs, i)
        ensures pairs[i].0 in after && after[pairs[i].0] == pairs[i].1 {
        if i > 0 { assert LastOf(rest, i - 1); } else { assert !Named(rest, pairs[0].0); }
      }
      forall f | !Named(pairs, f) ensures (f in after <==> f in m) && (f in m && f in after ==> after[f] == m[f]) {
        assert !Named(rest, f) && pairs[0].0 != f;
      }
    }
  }

  lemma {:induction false} CreatedIsGrowth(h: HashRep, pairs: seq<Pair>)
    requires WellFormed(h)
    ensures CreatedCount(h, pairs) == |Fields(WriteAll(h, pairs))| - |Fields(h)|
    decreases |pairs|
  {
    hide SetField, Fields, WellFormed;
    if pairs != [] {
      var (f, v) := pairs[0];
      SetRefines(h, f, v);
      GrowsByOne(Fields(h), f, v);
      CreatedIsGrowth(SetField(h, f, v), pairs[1..]);
    }
  }

  lemma GrowsByOne(m: map<string, string>, f: string, v: string)
    ensures |m[f := v]| == |m| + if f in m then 0 else 1
  {
    assert m[f := v].Keys == m.Keys + {f};
    assert |m.Keys| == |m| && |m[f := v].Keys| == |m[f := v]|;
  }

  /** HSET writes the fields in order, into a new hash if there is none, and replies how
      many are new; an odd number of arguments or another type refuses. */
  lemma HSetLaw(db: Db, k: string, pairs: seq<Pair>, now: int) returns (w: HashRep)
    requires Consistent(db) && pairs != [] && (k in db.vals ==> db.vals[k].HashValue?)
    ensures var out := Exec(db, ["HSET", k] + Flat(pairs), now);
            var m := if k in db.vals then Fields(db.vals[k].hash) else map[];
            && WellFormed(w) && Written(m, Fields(w), pairs)
            && Stored(db, out.db, k, HashValue(w))
            && out.reply == Integer(|Fields(w)| - |m|) && (out.success <==> |Fields(w)| > |m|)
  {
    hide OpOf, Settle, Stored, Written, Fields, WellFormed, WriteAll, CreatedCount, Pairs, Flat;
    var args := ["HSET", k] + Flat(pairs);
    PairsOfFlat(pairs);
    assert args[2..] == Flat(pairs);
    Dispatch(args);
    EmptyFields();
    var h := if k in db.vals then db.vals[k].hash else EMPTY_HASH;
    w := WriteAll(h, pairs);
    WellFormedHere(db, k);
    WriteAllFields(h, pairs);
    OverlayWrites(Fields(h), pairs);
    CreatedIsGrowth(h, pairs);
    if k in db.vals { StoredPut(db, k, HashValue(w)); } else { StoredCreate(db, k, HashValue(w)); }
  }

  lemma EmptyFields()
    ensures Fields(EMPTY_HASH) == map[] && WellFormed(EMPTY_HASH)
  {}

  lemma WellFormedHere(db: Db, k: string)
    requires Consistent(db)
    ensures k in db.vals && db.vals[k].HashValue? ==> WellFormed(db.vals[k].hash)
  {}

  lemma HSetRefused(db: Db, k: string, rest: seq<string>, now: int)
    requires |rest| >= 2
    ensures var out := Exec(db, ["HSET", k] + rest, now);
            && (|rest| % 2 == 1 ==> out == Outcome(db, Failed, false))
            && (|rest| % 2 == 0 && k in db.vals && !db.vals[k].HashValue? ==> out == Outcome(db, WrongType, false))
  {
    hide OpOf, Settle, WriteAll, CreatedCount, Pairs;
    Dispatch(["HSET", k] + rest);
    KeepIsKeep(db);
  }

  /** HGET replies with the field, and only then makes the key the most recent. */
  lemma HGetLaw(db: Db, k: string, f: string, now: int)
    ensures var out := Exec(db, ["HGET", k, f], now);
            if k !in db.vals then out == Outcome(db, NilBulk, false)
            else if !db.vals[k].HashValue? then out == Outcome(db, WrongType, false)
            else
              var m := Fields(db.vals[k].hash);
              if f in m then out == Outcome(Db(Without(db.order, k) + [k], db.vals), Bulk(m[f]), false)
              else out == Outcome(db, NilBulk, false)
  {
    hide OpOf, Without, Fields;
    Dispatch(["HGET", k, f]);
  }

  lemma {:induction false} DeletedIsLoss(h: HashRep, fields: seq<string>)
    requires WellFormed(h)
    ensures DeletedCount(h, fields) == |Fields(h)| - |Fields(DeleteAll(h, fields))|
    decreases |fields|
  {
    hide DeleteField, Fields, WellFormed;
    if fields != [] {
      DeleteRefines(h, fields[0]);
      ShrinksByOne(Fields(h), fields[0]);
      DeletedIsLoss(DeleteField(h, fields[0]), fields[1..]);
    }
  }

  lemma ShrinksByOne<T>(m: map<string, T>, f: string)
    ensures |m - {f}| == |m| - if f in m then 1 else 0
  {
    if f in m { SizeRemove(m, f); } else { assert m - {f} == m; }
  }

  lemma FewerFieldsCostLess(h: HashRep, g: HashRep)
    requires WellFormed(h) && WellFormed(g) && (g.MapRep? <==> h.MapRep?)
    requires forall f :: f in Fields(g) ==> f in Fields(h) && Fields(g)[f] == Fields(h)[f]
    ensures HashMem(g) <= HashMem(h)
  {
    MemIsSum(h);
    MemIsSum(g);
    SumMonotone(FieldCosts(Fields(g), Overhead(g)), FieldCosts(Fields(h), Overhead(h)));
  }

  /** HDEL leaves the fields it does not name, and replies how many are gone. */
  lemma HDelLaw(db: Db, k: string, fs: seq<string>, now: int) returns (w: HashRep)
    requires Consistent(db) && Fits(db.vals) && fs != [] && k in db.vals && db.vals[k].HashValue?
    ensures var out := Exec(db, ["HDEL", k] + fs, now);
            var m := Fields(db.vals[k].hash);
            && WellFormed(w) && Fields(w) == (map f | f in m && f !in fs :: m[f])
            && out.db == Db(Without(db.order, k) + [k], db.vals[k := HashValue(w)])
            && out.reply == Integer(|m| - |Fields(w)|) && (out.success <==> |Fields(w)| < |m|)
  {
    hide OpOf, Settle, Fields, WellFormed, DeleteAll, DeletedCount, Without, HashMem, Elements, Total, Consistent;
    var args := ["HDEL", k] + fs;
    assert args[2..] == fs;
    Dispatch(args);
    WellFormedHere(db, k);
    var h := db.vals[k].hash;
    w := DeleteAll(h, fs);
    DeleteAllRefines(h, fs);
    DeletedIsLoss(h, fs);
    FewerFieldsCostLess(h, w);
    StoredSmaller(db, k, HashValue(w));
    NotNamed(Fields(h), fs);
  }

  lemma NotNamed(m: map<string, string>, fs: seq<string>)
    ensures m - Elements(fs) == (map f | f in m && f !in fs :: m[f])
  {}

  lemma HDelElsewhere(db: Db, k: string, fs: seq<string>, now: int)
    requires fs != []
    ensures var out := Exec(db, ["HDEL", k] + fs, now);
            && (k !in db.vals ==> out == Outcome(db, Integer(0), false))
            && (k in db.vals && !db.vals[k].HashValue? ==> out == Outcome(db, WrongType, false))
  {
    hide OpOf;
    Dispatch(["HDEL", k] + fs);
  }

  // ---------- sets ----------

  /** SADD adds the elements it names, to a new set if there is none, and replies how many
      are new. */
  lemma SAddLaw(db: Db, k: string, es: seq<string>, now: int)
    requires Consistent(db) && es != []
    ensures var out := Exec(db, ["SADD", k] + es, now);
            if k in db.vals && !db.vals[k].SetValue? then out == Outcome(db, WrongType, false)
            else
              var before := if k in db.vals then db.vals[k].elements else {};
              var after := before + (set e | e in es);
              && Stored(db, out.db, k, SetValue(after))
              && out.reply == Integer(|after| - |before|) && (out.success <==> |after| > |before|)
  {
    hide OpOf, Settle, Stored;
    var args := ["SADD", k] + es;
    assert args[2..] == es;
    Dispatch(args);
    var before := if k in db.vals && db.vals[k].SetValue? then db.vals[k].elements else {};
    assert Elements(es) == (set e | e in es);
    KeepIsKeep(db);
    StoredPut(db, k, SetValue(before + (set e | e in es)));
  }

  lemma FewerElementsCostLess(s: set<string>, t: set<string>)
    requires t <= s
    ensures SetMem(t) <= SetMem(s)
  {
    SumMonotone(ElementCosts(t), ElementCosts(s));
  }

  /** SDEL leaves the elements it does not name, and replies how many are gone. */
  lemma SDelLaw(db: Db, k: string, es: seq<string>, now: int)
    requires Consistent(db) && Fits(db.vals) && es != []
    ensures var out := Exec(db, ["SDEL", k] + es, now);
            if k !in db.vals then out == Outcome(db, Failed, false)
            else if !db.vals[k].SetValue? then out == Outcome(db, WrongType, false)
            else
              var before := db.vals[k].elements;
              var after := set e | e in before && e !in es;
              && out.db == Db(Without(db.order, k) + [k], db.vals[k := SetValue(after)])
              && out.reply == Integer(|before| - |after|) && (out.success <==> |after| < |before|)
  {
    hide OpOf, Settle, Without, SetMem;
    var args := ["SDEL", k] + es;
    assert args[2..] == es;
    Dispatch(args);
    KeepIsKeep(db);
    if k in db.vals && db.vals[k].SetValue? {
      var before := db.vals[k].elements;
      var after := set e | e in before && e !in es;
      assert before - Elements(es) == after;
      FewerElementsCostLess(before, after);
      StoredSmaller(db, k, SetValue(after));
    }
  }

  // ---------- keys ----------

  lemma {:induction false} PresentIsLoss(vals: Values, keys: seq<string>)
    ensures PresentCount(vals, keys) == |vals| - |vals - Elements(keys)|
    decreases |keys|
  {
    hide Elements;
    if keys == [] {
      WithoutNothing(vals);
    } else {
      ShrinksByOne(vals, keys[0]);
      PresentIsLoss(vals - {keys[0]}, keys[1..]);
      OneByOne(vals, keys);
    }
  }

  /** DEL removes the keys it names and no others, and replies how many were there. */
  lemma DelLaw(db: Db, keys: seq<string>, now: int)
    requires Consistent(db) && keys != []
    ensures var out := Exec(db, ["DEL"] + keys, now);
            && out.db.vals == (map k | k in db.vals && k !in keys :: db.vals[k]) && Consistent(out.db)
            && out.reply == Integer(|db.vals| - |out.db.vals|) && (out.success <==> |out.db.vals| < |db.vals|)
  {
    hide OpOf, PresentCount, RemoveAll, Consistent, Elements;
    var args := ["DEL"] + keys;
    assert args[1..] == keys;
    Dispatch(args);
    RemoveAllConsistent(db, keys);
    PresentIsLoss(db.vals, keys);
    NotAmong(db.vals, keys);
  }

  lemma NotAmong(vals: Values, keys: seq<string>)
    ensures vals - Elements(keys) == (map k | k in vals && k !in keys :: vals[k])
  {}

  /** LRANGE and LLEN of a list, and HGETALL of a hash, make the key the most recent, and
      change nothing else. */
  lemma ReadLaw(db: Db, args: Command, now: int)
    requires (|args| == 4 && args[0] == "LRANGE") || (|args| == 2 && (args[0] == "LLEN" || args[0] == "HGETALL"))
    ensures var out := Exec(db, args, now);
            var k := args[1];
            var found := k in db.vals && if args[0] == "HGETALL" then db.vals[k].HashValue? else db.vals[k].ListValue?;
            out.db == (if found then Db(Without(db.order, k) + [k], db.vals) else db) && !out.success
  {
    hide OpOf, Without;
    Dispatch(args);
  }

  /** FLUSHDB empties the store if it is told to be sure. */
  lemma FlushLaw(db: Db, rest: seq<string>, now: int)
    ensures Exec(db, ["FLUSHDB"] + rest, now) ==
            if rest != [] && rest[0] == "--sure" then Outcome(EMPTY, Done, true) else Outcome(db, Failed, false)
  {
    hide OpOf;
    Dispatch(["FLUSHDB"] + rest);
  }

  /** Every other name, and every other number of arguments, leaves the store alone. */
  lemma OtherLaw(db: Db, args: Command, now: int)
    requires args == [] || var name, n := ToUpper(args[0]), |args|;
               && !(name == "SET" && n >= 3) && !(name == "GET" && n == 2)
               && !(name == "RPUSH" && n >= 3) && !(name == "LPUSH" && n >= 3) && !(name == "LRANGE" && n == 4)
               && !(name == "LPOP" && n >= 2) && !(name == "RPOP" && n >= 2) && !(name == "LLEN" && n == 2)
               && !(name == "HSET" && n >= 4) && !(name == "HGET" && n == 3) && !(name == "HGETALL" && n == 2)
               && !(name == "HDEL" && n >= 3) && !(name == "SADD" && n >= 3) && !(name == "SDEL" && n >= 3)
               && !(name == "DEL" && n >= 2) && name != "FLUSHDB"
    ensures Exec(db, args, now) == Outcome(db, Elsewhere, false)
  {
    hide ToUpper;
  }

  // ---------- what other commands leave alone ----------

  /** A command that does not name a key does not touch its value: the key keeps it, or
      is evicted, or goes with all others in FLUSHDB. */
  lemma UnnamedLaw(db: Db, args: Command, k: string, now: int)
    requires Consistent(db) && args != [] && k !in args[1..]
    ensures var after := Exec(db, args, now).db; k in after.vals ==> k in db.vals && after.vals[k] == db.vals[k]
  {
    hide Settle, Apply, Consistent;
    var e := Apply(db.vals, args, now).effect;
    EffectNames(db.vals, args, now);
    EffectOk(db, args, now);
    SettlesWithin(db, e);
  }

  /** The keys an effect is about are arguments of the command. */
  lemma EffectNames(vals: Values, args: Command, now: int)
    requires args != []
    ensures match Apply(vals, args, now).effect
            case Put(k, _) => k in args[1..]
            case Create(k, _, _) => k in args[1..]
            case _ => true
  {
    hide OpOf, ParseExpiry, PushAll, TakeItems, WriteAll, DeleteAll, CreatedCount, DeletedCount, Pairs, Elements,
         PresentCount, Fields, Stoi;
    Arguments(args);
    if |args| >= 2 { assert args[1] == args[1..][0]; }
  }

  /** ... so that GET, at any time, replies as before. */
  lemma UnnamedGet(db: Db, args: Command, k: string, now: int, later: int)
    requires Consistent(db) && args != [] && k !in args[1..]
    requires k in db.vals ==> k in Exec(db, args, now).db.vals
    ensures Exec(Exec(db, args, now).db, ["GET", k], later).reply == Exec(db, ["GET", k], later).reply
  {
    hide Exec, Without, Consistent;
    UnnamedLaw(db, args, k, now);
    GetLaw(db, k, later);
    GetLaw(Exec(db, args, now).db, k, later);
  }

  // ---------- rewriting and replaying the log ----------

  function Only(order: seq<string>, keys: set<string>): seq<string> {
    if order == [] then [] else (if order[0] in keys then [order[0]] else []) + Only(order[1..], keys)
  }

  lemma {:induction false} OnlyConcat(a: seq<string>, b: seq<string>, keys: set<string>)
    ensures Only(a + b, keys) == Only(a, keys) + Only(b, keys)
  {
    if a == [] {
      assert a + b == b;
    } else {
      var first := if a[0] in keys then [a[0]] else [];
      assert (a + b)[1..] == a[1..] + b && (a + b)[0] == a[0];
      OnlyConcat(a[1..], b, keys);
      assert first + (Only(a[1..], keys) + Only(b, keys)) == (first + Only(a[1..], keys)) + Only(b, keys);
    }
  }

  lemma {:induction false} KeptIsOnly(order: seq<string>, vals: Values, now: int, keys: set<string>)
    requires forall k :: k in order ==> (k in keys <==> k in vals && Kept(vals[k], now))
    ensures KeptKeys(order, vals, now) == Only(order, keys)
  {
    hide Kept;
    if order != [] {
      var last := order[|order| - 1];
      KeptIsOnly(order[..|order| - 1], vals, now, keys);
      OnlyConcat(order[..|order| - 1], [last], keys);
      assert order[..|order| - 1] + [last] == order;
      assert Only([last][1..], keys) == [];
    }
  }

  /** What is left of a store after its log has been rewritten and replayed: every list,
      hash and set with something in it, every string whose time has not passed, with the
      same contents, in the same order; a string without a time to come has none. */
  lemma RewriteLaw(db: Db, now: int)
    requires Consistent(db)
    ensures var left := Restored(db, now);
            && left.order == Only(db.order, left.vals.Keys)
            && (forall k :: k in left.vals <==> (k in db.vals && match db.vals[k]
                  case StringValue(_, e) => e <= 0 || now <= e
                  case ListValue(items) => items != []
                  case HashValue(h) => Fields(h) != map[]
                  case SetValue(s) => s != {}))
    ensures var left := Restored(db, now);
            forall k :: k in left.vals ==> (k in db.vals && match db.vals[k]
              case StringValue(text, e) => left.vals[k] == StringValue(text, if e > 0 then e else 0)
              case HashValue(h) => left.vals[k].HashValue? && Fields(left.vals[k].hash) == Fields(h)
              case _ => left.vals[k] == db.vals[k])
  {
    var left := Restored(db, now);
    assert db.order[..|db.order|] == db.order;
    forall k ensures k in left.vals <==> k in db.vals && Kept(db.vals[k], now) {
      assert k in db.vals ==> k in db.order;
    }
    KeptIsOnly(db.order, db.vals, now, left.vals.Keys);
    forall k | k in db.vals ensures KeptAsSaid(db.vals[k], now) {
      WellFormedHere(db, k);
      KeptSays(db.vals[k], now);
    }
  }

  /** Whether a rewrite keeps a value, and as what. */
  predicate KeptAsSaid(v: Value, now: int) {
    match v
    case StringValue(text, e) =>
      (Kept(v, now) <==> e <= 0 || now <= e) && Reload(v) == StringValue(text, if e > 0 then e else 0)
    case ListValue(items) => (Kept(v, now) <==> items != []) && Reload(v) == v
    case HashValue(h) =>
      (Kept(v, now) <==> Fields(h) != map[]) && Reload(v).HashValue? && Fields(Reload(v).hash) == Fields(h)
    case SetValue(s) => (Kept(v, now) <==> s != {}) && Reload(v) == v
  }

  lemma KeptSays(v: Value, now: int)
    requires ValueOk(v)
    ensures KeptAsSaid(v, now)
  {
    if v.HashValue? {
      EmptyHash(v.hash);
      ReloadHash(v.hash);
    }
  }

  /** A client that asks a store in step with another, GET or HGET of any key at any later
      time, is given a text by the one if and only if it is given the same by the other. */
  lemma SeesTheSame(live: Db, rep: Db, k: string, f: string, now: int, later: int)
    requires InSync(live.vals, rep.vals, now) && now <= later
    ensures var a, b := Exec(live, ["GET", k], later).reply, Exec(rep, ["GET", k], later).reply;
            a.Bulk? || b.Bulk? ==> a == b
    ensures var a, b := Exec(live, ["HGET", k, f], later).reply, Exec(rep, ["HGET", k, f], later).reply;
            a.Bulk? || b.Bulk? ==> a == b
  {
    hide Exec, Without, InSync;
    KeySides(live.vals, rep.vals, k, now);
    GetLaw(live, k, later);
    GetLaw(rep, k, later);
    HGetLaw(live, k, f, later);
    HGetLaw(rep, k, f, later);
  }

  /** Durability as clients see it: after any run that meets the side conditions, the
      replayed store gives the texts the live store gives. */
  lemma ClientsSeeTheSame(steps: seq<Turn>, start: int, k: string, f: string, clock: int, later: int)
    requires RunOk(FRESH, steps, start) && Finish(steps, start) <= later
    ensures var live, rep := Run(FRESH, steps).db, Recovered(Run(FRESH, steps).log, clock);
            var a, b := Exec(live, ["GET", k], later).reply, Exec(rep, ["GET", k], later).reply;
            a.Bulk? || b.Bulk? ==> a == b
    ensures var live, rep := Run(FRESH, steps).db, Recovered(Run(FRESH, steps).log, clock);
            var a, b := Exec(live, ["HGET", k, f], later).reply, Exec(rep, ["HGET", k, f], later).reply;
            a.Bulk? || b.Bulk? ==> a == b
  {
    hide Exec, InSync, Run, RunOk, Recovered;
    RunIsDurable(steps, start, clock);
    SeesTheSame(Run(FRESH, steps).db, Recovered(Run(FRESH, steps).log, clock), k, f, Finish(steps, start), later);
  }

  // ---------- bytes ----------

  function Letters(words: seq<string>): nat {
    if words == [] then 0 else Cap(words[0]) + Letters(words[1..])
  }

  /** What a key costs, in bytes: its node, its name, and what it holds. */
  lemma CostLaw(k: string, v: Value)
    requires ValueOk(v)
    ensures match v
            case StringValue(text, _) => NodeMem(k, v) == 192 + Cap(k) + Cap(text)
            case ListValue(items) => NodeMem(k, v) == 160 + Cap(k) + 40 * |items| + Letters(items)
            case SetValue(s) => NodeMem(k, v) == 160 + Cap(k) + 96 * |s| + Sum(map e | e in s :: Cap(e))
            case HashValue(h) =>
              var m := Fields(h);
              NodeMem(k, v) == 160 + Cap(k) + (if h.MapRep? then 128 else 64) * |m|
                               + Sum(map f | f in m :: Cap(f) + Cap(m[f]))
  {
    match v
    case StringValue(_, _) =>
    case ListValue(items) => ListCost(items);
    case SetValue(s) => SetCost(s);
    case HashValue(h) => HashCost(h);
  }

  lemma SetCost(s: set<string>)
    ensures SetMem(s) == 96 * |s| + Sum(map e | e in s :: Cap(e))
  {
    hide Cap;
    var caps: map<string, nat> := map e | e in s :: Cap(e);
    SizeOfKeys(caps, s);
    SumShift(caps, ElementCosts(s), 96, |s|);
  }

  lemma HashCost(h: HashRep)
    requires WellFormed(h)
    ensures var m := Fields(h);
            HashMem(h) == (if h.MapRep? then 128 else 64) * |m| + Sum(map f | f in m :: Cap(f) + Cap(m[f]))
  {
    hide Cap, Fields, WellFormed;
    var m := Fields(h);
    var caps: map<string, nat> := map f | f in m :: Cap(f) + Cap(m[f]);
    MemIsSum(h);
    SizeOfKeys(caps, m.Keys);
    SumShift(caps, FieldCosts(m, Overhead(h)), Overhead(h), |m|);
  }

  lemma SizeOfKeys(m: map<string, nat>, keys: set<string>)
    requires m.Keys == keys
    ensures |m| == |keys|
  {}

  lemma {:induction false} ListCost(items: seq<string>)
    ensures ListMem(items) == 40 * |items| + Letters(items)
  {
    if items != [] { ListCost(items[1..]); }
  }
}
