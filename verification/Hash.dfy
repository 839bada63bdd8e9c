/** DrutaHash: a map kept as a vector of pairs up to 64 entries and as a sorted
    map from then on, with its byte count maintained by deltas. */
module Hash {
  import opened Text
  import opened Costs

  const DRUTA_MAX_KEY: nat := 64

  type Pair = (string, string)

  datatype HashRep = VectorRep(entries: seq<Pair>) | MapRep(fields: map<string, string>)

  // ---------- the abstract map ----------

  predicate Unique(entries: seq<Pair>) {
    forall i, j :: 0 <= i < j < |entries| ==> entries[i].0 != entries[j].0
  }

  /** The map convert_to_map builds: later pairs overwrite earlier ones. */
  function FromVector(entries: seq<Pair>): map<string, string> {
    if entries == [] then map[]
    else
      var last := entries[|entries| - 1];
      FromVector(entries[..|entries| - 1])[last.0 := last.1]
  }

  function Fields(h: HashRep): map<string, string> {
    match h
    case VectorRep(entries) => FromVector(entries)
    case MapRep(m) => m
  }

  predicate WellFormed(h: HashRep) {
    h.VectorRep? ==> Unique(h.entries) && |h.entries| <= DRUTA_MAX_KEY
  }

  // ---------- memory ----------

  function PairMem(p: Pair, overhead: nat): nat { Cap(p.0) + Cap(p.1) + overhead }

  function VectorMem(entries: seq<Pair>): nat {
    if entries == [] then 0
    else VectorMem(entries[..|entries| - 1])
         + PairMem(entries[|entries| - 1], HASH_ENTRY_OVERHEAD_VECTOR)
  }

  ghost function FieldCosts(m: map<string, string>, overhead: nat): map<string, nat> {
    map f | f in m :: PairMem((f, m[f]), overhead)
  }

  /** The from-scratch recount. */
  ghost function HashMem(h: HashRep): nat {
    match h
    case VectorRep(entries) => VectorMem(entries)
    case MapRep(m) => Sum(FieldCosts(m, HASH_ENTRY_OVERHEAD_MAP))
  }

  // ---------- operations ----------

  /** Index of the first pair with this field, or the length. */
  function Find(entries: seq<Pair>, field: string): (i: nat)
    ensures i <= |entries|
    ensures i < |entries| ==> entries[i].0 == field
    ensures forall j :: 0 <= j < i ==> entries[j].0 != field
  {
    if entries == [] || entries[0].0 == field then 0 else 1 + Find(entries[1..], field)
  }

  function Convert(h: HashRep): HashRep {
    MapRep(Fields(h))
  }

  function SetField(h: HashRep, field: string, value: string): HashRep {
    match h
    case VectorRep(entries) =>
      var i := Find(entries, field);
      if i < |entries| then VectorRep(entries[i := (field, value)])
      else
        var grown := VectorRep(entries + [(field, value)]);
        if |grown.entries| > DRUTA_MAX_KEY then Convert(grown) else grown
    case MapRep(m) => MapRep(m[field := value])
  }

  function DeleteField(h: HashRep, field: string): HashRep {
    match h
    case VectorRep(entries) =>
      var i := Find(entries, field);
      if i < |entries| then VectorRep(entries[..i] + entries[i + 1..]) else h
    case MapRep(m) => MapRep(m - {field})
  }

  function Lookup(m: map<string, string>, field: string): Option<string> {
    if field in m then Some(m[field]) else None
  }

  // ---------- facts about vectors with unique fields ----------

  lemma {:induction false} VectorFields(entries: seq<Pair>)
    requires Unique(entries)
    ensures forall i :: 0 <= i < |entries| ==>
              entries[i].0 in FromVector(entries) && FromVector(entries)[entries[i].0] == entries[i].1
    ensures forall f :: f in FromVector(entries) ==> exists i :: 0 <= i < |entries| && entries[i].0 == f
    ensures |FromVector(entries)| == |entries|
  {
    if entries != [] {
      var front, last := entries[..|entries| - 1], entries[|entries| - 1];
      VectorFields(front);
      assert last.0 !in FromVector(front);
      assert forall i :: 0 <= i < |front| ==> front[i] == entries[i];
      assert FromVector(entries).Keys == FromVector(front).Keys + {last.0};
    }
  }

  lemma FieldsOfAppend(entries: seq<Pair>, field: string, value: string)
    requires Unique(entries) && Find(entries, field) == |entries|
    ensures Unique(entries + [(field, value)])
    ensures FromVector(entries + [(field, value)]) == FromVector(entries)[field := value]
  {
    var grown := entries + [(field, value)];
    assert grown[..|grown| - 1] == entries;
  }

  lemma {:induction false} FieldsOfUpdate(entries: seq<Pair>, i: nat, value: string)
    requires Unique(entries) && i < |entries|
    ensures FromVector(entries[i := (entries[i].0, value)])
         == FromVector(entries)[entries[i].0 := value]
  {
    var front, last := entries[..|entries| - 1], entries[|entries| - 1];
    var field := entries[i].0;
    var written := entries[i := (field, value)];
    if i < |front| {
      FieldsOfUpdate(front, i, value);
      assert written[..|front|] == front[i := (field, value)];
      var m := FromVector(front);
      assert m[field := value][last.0 := last.1] == m[last.0 := last.1][field := value];
    } else {
      assert written[..|front|] == front;
    }
  }

  lemma FieldsOfLast(entries: seq<Pair>)
    requires entries != []
    ensures var front, last := entries[..|entries| - 1], entries[|entries| - 1];
            FromVector(entries) == FromVector(front)[last.0 := last.1]
  {}

  lemma {:induction false} FieldsOfErase(entries: seq<Pair>, i: nat)
    requires Unique(entries) && i < |entries|
    ensures FromVector(entries[..i] + entries[i + 1..]) == FromVector(entries) - {entries[i].0}
  {
    hide FromVector;
    var front, last := entries[..|entries| - 1], entries[|entries| - 1];
    var field := entries[i].0;
    var left := entries[..i] + entries[i + 1..];
    var m := FromVector(front);
    FieldsOfLast(entries);
    if i < |front| {
      FieldsOfErase(front, i);
      FieldsOfLast(left);
      assert left[..|left| - 1] == front[..i] + front[i + 1..];
      assert (m - {field})[last.0 := last.1] == m[last.0 := last.1] - {field};
    } else {
      VectorFields(front);
      assert left == front;
      assert m[last.0 := last.1] - {field} == m;
    }
  }

  lemma FindFields(entries: seq<Pair>, field: string)
    requires Unique(entries)
    ensures Find(entries, field) < |entries| <==> field in FromVector(entries)
    ensures field in FromVector(entries) ==>
              FromVector(entries)[field] == entries[Find(entries, field)].1
  {
    VectorFields(entries);
  }

  lemma PutCosts(m: map<string, string>, field: string, value: string, overhead: nat)
    ensures field in m ==>
              Sum(FieldCosts(m[field := value], overhead)) + Cap(m[field])
              == Sum(FieldCosts(m, overhead)) + Cap(value)
    ensures field !in m ==>
              Sum(FieldCosts(m[field := value], overhead))
              == Sum(FieldCosts(m, overhead)) + PairMem((field, value), overhead)
  {
    SumPut(FieldCosts(m, overhead), field, PairMem((field, value), overhead));
    assert FieldCosts(m[field := value], overhead)
        == FieldCosts(m, overhead)[field := PairMem((field, value), overhead)];
  }

  /** The vector recount is a sum over the abstract map: it does not depend on
      the order of the pairs. */
  lemma {:induction false} VectorMemIsSum(entries: seq<Pair>)
    requires Unique(entries)
    ensures VectorMem(entries) == Sum(FieldCosts(FromVector(entries), HASH_ENTRY_OVERHEAD_VECTOR))
  {
    if entries == [] {
      assert FieldCosts(map[], HASH_ENTRY_OVERHEAD_VECTOR) == map[];
    } else {
      var front, last := entries[..|entries| - 1], entries[|entries| - 1];
      VectorMemIsSum(front);
      VectorFields(front);
      PutCosts(FromVector(front), last.0, last.1, HASH_ENTRY_OVERHEAD_VECTOR);
    }
  }

  ghost function Overhead(h: HashRep): nat {
    if h.VectorRep? then HASH_ENTRY_OVERHEAD_VECTOR else HASH_ENTRY_OVERHEAD_MAP
  }

  lemma MemIsSum(h: HashRep)
    requires WellFormed(h)
    ensures HashMem(h) == Sum(FieldCosts(Fields(h), Overhead(h)))
  {
    if h.VectorRep? { VectorMemIsSum(h.entries); }
  }

  lemma DropCosts(m: map<string, string>, field: string, overhead: nat)
    requires field in m
    ensures Sum(FieldCosts(m - {field}, overhead)) + PairMem((field, m[field]), overhead)
         == Sum(FieldCosts(m, overhead))
  {
    SumRemove(FieldCosts(m, overhead), field);
    assert FieldCosts(m - {field}, overhead) == FieldCosts(m, overhead) - {field};
  }

  /** Converting charges one map node for every entry, no more: this is where
      unique fields matter, as the map must not be smaller than the vector. */
  lemma ConvertCosts(entries: seq<Pair>)
    requires Unique(entries)
    ensures HashMem(MapRep(FromVector(entries))) == VectorMem(entries) + |entries| * MAP_NODE_OVERHEAD
    ensures |FromVector(entries)| == |entries|
  {
    VectorMemIsSum(entries);
    VectorFields(entries);
    var m := FromVector(entries);
    var a := FieldCosts(m, HASH_ENTRY_OVERHEAD_VECTOR);
    assert a.Keys == m.Keys;
    SumShift(a, FieldCosts(m, HASH_ENTRY_OVERHEAD_MAP), MAP_NODE_OVERHEAD, |entries|);
  }

  // ---------- refinement of a finite map ----------

  /** set_hash writes the abstract map, keeps fields unique and the vector form
      small, and never leaves the map form. */
  lemma SetRefines(h: HashRep, field: string, value: string)
    requires WellFormed(h)
    ensures WellFormed(SetField(h, field, value))
    ensures Fields(SetField(h, field, value)) == Fields(h)[field := value]
    ensures h.MapRep? ==> SetField(h, field, value).MapRep?
    ensures h.VectorRep? ==>
              (SetField(h, field, value).MapRep? <==>
               field !in Fields(h) && |Fields(h)| == 64)
  {
    hide FromVector, Find;
    if h.VectorRep? {
      var es := h.entries;
      FindFields(es, field);
      VectorFields(es);
      var i := Find(es, field);
      if i < |es| {
        FieldsOfUpdate(es, i, value);
      } else {
        FieldsOfAppend(es, field, value);
      }
    }
  }

  lemma DeleteRefines(h: HashRep, field: string)
    requires WellFormed(h)
    ensures WellFormed(DeleteField(h, field))
    ensures Fields(DeleteField(h, field)) == Fields(h) - {field}
    ensures h.MapRep? <==> DeleteField(h, field).MapRep?
  {
    hide FromVector, Find, Unique;
    if h.VectorRep? {
      var es := h.entries;
      FindFields(es, field);
      var i := Find(es, field);
      if i < |es| {
        FieldsOfErase(es, i);
        EraseUnique(es, i);
      } else {
        assert Fields(h) - {field} == Fields(h);
      }
    }
  }

  lemma EraseUnique(entries: seq<Pair>, i: nat)
    requires Unique(entries) && i < |entries|
    ensures Unique(entries[..i] + entries[i + 1..])
  {
  }

  datatype Operation = SetOp(field: string, value: string) | GetOp(field: string) | DeleteOp(field: string)
  datatype Answer = Flag(done: bool) | Found(value: Option<string>)

  function Perform(h: HashRep, op: Operation): HashRep {
    match op
    case SetOp(f, v) => SetField(h, f, v)
    case GetOp(_) => h
    case DeleteOp(f) => DeleteField(h, f)
  }

  /** What the three methods answer, read off the representation. */
  function RepAnswer(h: HashRep, op: Operation): Answer {
    match (h, op)
    case (VectorRep(es), SetOp(f, _)) => Flag(Find(es, f) == |es|)
    case (VectorRep(es), GetOp(f)) =>
      Found(if Find(es, f) < |es| then Some(es[Find(es, f)].1) else None)
    case (VectorRep(es), DeleteOp(f)) => Flag(Find(es, f) < |es|)
    case (MapRep(m), SetOp(f, _)) => Flag(f !in m)
    case (MapRep(m), GetOp(f)) => Found(Lookup(m, f))
    case (MapRep(m), DeleteOp(f)) => Flag(f in m)
  }

  function PerformAll(h: HashRep, ops: seq<Operation>): HashRep
    decreases |ops|
  {
    if ops == [] then h else PerformAll(Perform(h, ops[0]), ops[1..])
  }

  function RepAnswers(h: HashRep, ops: seq<Operation>): seq<Answer>
    decreases |ops|
  {
    if ops == [] then [] else [RepAnswer(h, ops[0])] + RepAnswers(Perform(h, ops[0]), ops[1..])
  }

  /** The same on a plain finite map. */
  function MapPerform(m: map<string, string>, op: Operation): map<string, string> {
    match op
    case SetOp(f, v) => m[f := v]
    case GetOp(_) => m
    case DeleteOp(f) => m - {f}
  }

  function MapAnswer(m: map<string, string>, op: Operation): Answer {
    match op
    case SetOp(f, _) => Flag(f !in m)
    case GetOp(f) => Found(Lookup(m, f))
    case DeleteOp(f) => Flag(f in m)
  }

  function MapPerformAll(m: map<string, string>, ops: seq<Operation>): map<string, string>
    decreases |ops|
  {
    if ops == [] then m else MapPerformAll(MapPerform(m, ops[0]), ops[1..])
  }

  function MapAnswers(m: map<string, string>, ops: seq<Operation>): seq<Answer>
    decreases |ops|
  {
    if ops == [] then [] else [MapAnswer(m, ops[0])] + MapAnswers(MapPerform(m, ops[0]), ops[1..])
  }

  lemma PerformRefines(h: HashRep, op: Operation)
    requires WellFormed(h)
    ensures WellFormed(Perform(h, op))
    ensures Fields(Perform(h, op)) == MapPerform(Fields(h), op)
    ensures RepAnswer(h, op) == MapAnswer(Fields(h), op)
    ensures h.MapRep? ==> Perform(h, op).MapRep?
  {
    if h.VectorRep? { FindFields(h.entries, op.field); }
    match op
    case SetOp(f, v) => SetRefines(h, f, v);
    case GetOp(_) =>
    case DeleteOp(f) => DeleteRefines(h, f);
  }

  /** Over any sequence of operations the two-form hash cannot be told from a
      finite map, including across the conversion; it stays well formed and
      never returns to the vector form. */
  lemma {:induction false} RefinesFiniteMap(h: HashRep, ops: seq<Operation>)
    requires WellFormed(h)
    ensures RepAnswers(h, ops) == MapAnswers(Fields(h), ops)
    ensures Fields(PerformAll(h, ops)) == MapPerformAll(Fields(h), ops)
    ensures WellFormed(PerformAll(h, ops))
    ensures h.MapRep? ==> PerformAll(h, ops).MapRep?
    decreases |ops|
  {
    if ops != [] {
      PerformRefines(h, ops[0]);
      RefinesFiniteMap(Perform(h, ops[0]), ops[1..]);
    }
  }

  // ---------- the object ----------

  class DrutaHash {
    // `type` and the variant `data` always agree; both are the constructor of rep.
    var rep: HashRep
    var memoryUsage: nat

    ghost predicate Valid()
      reads this`rep, this`memoryUsage
    {
      WellFormed(rep) && memoryUsage == HashMem(rep)
    }

    /** From a vector of pairs: the recount loop. */
    constructor (entries: seq<Pair>)
      ensures rep == VectorRep(entries) && memoryUsage == HashMem(rep)
      ensures WellFormed(rep) ==> Valid()
    {
      rep := VectorRep(entries);
      var usage: nat := 0;
      for i := 0 to |entries|
        invariant usage == VectorMem(entries[..i])
      {
        assert entries[..i + 1][..i] == entries[..i];
        usage := usage + Cap(entries[i].0) + Cap(entries[i].1) + HASH_ENTRY_OVERHEAD_VECTOR;
      }
      assert entries[..|entries|] == entries;
      memoryUsage := usage;
    }

    method Get(field: string) returns (r: Option<string>)
      requires Valid()
      ensures r == Lookup(Fields(rep), field)
    {
      if rep.VectorRep? {
        FindFields(rep.entries, field);
        VectorFields(rep.entries);
        for i := 0 to |rep.entries|
          invariant forall j :: 0 <= j < i ==> rep.entries[j].0 != field
        {
          if rep.entries[i].0 == field {
            return Some(rep.entries[i].1);
          }
        }
        return None;
      }
      r := if field in rep.fields then Some(rep.fields[field]) else None;
    }

    /** Returns whether a field was created. */
    method Set(field: string, value: string) returns (created: bool)
      requires Valid()
      modifies this`rep, this`memoryUsage
      ensures Valid() && rep == SetField(old(rep), field, value)
      ensures created == (field !in Fields(old(rep)))
    {
      hide FromVector, Find, FieldCosts;
      SetRefines(rep, field, value);
      MemIsSum(rep);
      MemIsSum(SetField(rep, field, value));
      PutCosts(Fields(rep), field, value, Overhead(rep));
      if rep.VectorRep? {
        var vec := rep.entries;
        FindFields(vec, field);
        for i := 0 to |vec|
          invariant forall j :: 0 <= j < i ==> vec[j].0 != field
          invariant rep == old(rep) && memoryUsage == old(memoryUsage)
        {
          if vec[i].0 == field {
            assert i == Find(vec, field);
            VectorMemHas(vec, i);
            memoryUsage := memoryUsage - Cap(vec[i].1);
            rep := VectorRep(vec[i := (field, value)]);
            memoryUsage := memoryUsage + Cap(value);
            return false;
          }
        }
        assert Find(vec, field) == |vec|;
        rep := VectorRep(vec + [(field, value)]);
        memoryUsage := memoryUsage + (Cap(field) + Cap(value) + HASH_ENTRY_OVERHEAD_VECTOR);
        assert (vec + [(field, value)])[..|vec|] == vec;
        if |rep.entries| > DRUTA_MAX_KEY {
          assert forall i :: 0 <= i < |vec| ==> vec[i].0 != field;
          ConvertToMap();
        }
        return true;
      } else {
        var m := rep.fields;
        if field in m {
          DropCosts(m, field, HASH_ENTRY_OVERHEAD_MAP);
          memoryUsage := memoryUsage - Cap(m[field]);
          rep := MapRep(m[field := value]);
          memoryUsage := memoryUsage + Cap(value);
          return false;
        } else {
          rep := MapRep(m[field := value]);
          memoryUsage := memoryUsage + (Cap(field) + Cap(value) + HASH_ENTRY_OVERHEAD_MAP);
          return true;
        }
      }
    }

    /** Returns whether a field was removed. */
    method Delete(field: string) returns (deleted: bool)
      requires Valid()
      modifies this`rep, this`memoryUsage
      ensures Valid() && rep == DeleteField(old(rep), field)
      ensures deleted == (field in Fields(old(rep)))
    {
      hide FromVector, Find, FieldCosts, VectorMem;
      DeleteRefines(rep, field);
      MemIsSum(rep);
      MemIsSum(DeleteField(rep, field));
      if field in Fields(rep) { DropCosts(Fields(rep), field, Overhead(rep)); }
      if rep.VectorRep? {
        var vec := rep.entries;
        FindFields(vec, field);
        for i := 0 to |vec|
          invariant forall j :: 0 <= j < i ==> vec[j].0 != field
          invariant rep == old(rep) && memoryUsage == old(memoryUsage)
        {
          if vec[i].0 == field {
            assert i == Find(vec, field);
            memoryUsage := memoryUsage - (Cap(vec[i].0) + Cap(vec[i].1) + HASH_ENTRY_OVERHEAD_VECTOR);
            rep := VectorRep(vec[..i] + vec[i + 1..]);
            return true;
          }
        }
        return false;
      } else {
        var m := rep.fields;
        if field in m {
          memoryUsage := memoryUsage - (Cap(field) + Cap(m[field]) + HASH_ENTRY_OVERHEAD_MAP);
          rep := MapRep(m - {field});
          return true;
        }
        assert m - {field} == m;
        return false;
      }
    }

    method Size() returns (n: nat)
      requires Valid()
      ensures n == |Fields(rep)|
    {
      if rep.VectorRep? {
        VectorFields(rep.entries);
        n := |rep.entries|;
      } else {
        n := |rep.fields|;
      }
    }

    /** Moves every pair into a map and charges the map nodes. */
    method ConvertToMap()
      requires rep.VectorRep? ==> Unique(rep.entries)
      requires memoryUsage == HashMem(rep)
      modifies this`rep, this`memoryUsage
      ensures Valid() && rep == Convert(old(rep))
    {
      if rep.MapRep? {
        return;
      }
      var vec := rep.entries;
      var m: map<string, string> := map[];
      for i := 0 to |vec|
        invariant m == FromVector(vec[..i])
      {
        m := m[vec[i].0 := vec[i].1];
        assert vec[..i + 1][..i] == vec[..i];
      }
      assert vec[..|vec|] == vec;
      ConvertCosts(vec);
      var count := |m|;
      rep := MapRep(m);
      memoryUsage := memoryUsage + count * MAP_NODE_OVERHEAD;
    }
  }

  lemma {:induction false} VectorMemHas(entries: seq<Pair>, i: nat)
    requires i < |entries|
    ensures Cap(entries[i].1) <= VectorMem(entries)
  {
    if i < |entries| - 1 { VectorMemHas(entries[..|entries| - 1], i); }
  }
}
