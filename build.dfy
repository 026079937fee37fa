/**
 * `build_cmd`: the walk over the configuration that extends the default
 * command with one exclude clause per operation and records each pattern's
 * thresholds in `curator_settings`, then the emission of an age command and a
 * disk-space command per recorded pattern.
 */
module Build {
  import opened Wrappers
  import opened Config
  import opened OrderedDict
  import opened Commands
  import opened Seqs

  /** One pattern's thresholds: `{unit: count, size_unit: quota}`. */
  type Limits = map<string, int>

  /** `curator_settings[operation]`: pattern to thresholds, in first-assignment order (see `OrderedDict`). */
  type Table = Dict<Limits>

  /** `curator_settings`: operation to table. */
  type Settings = Dict<Table>

  const DeleteOp := "delete"

  /** `curator_settings` as the constructor leaves it. */
  const InitialSettings: Settings := [(DeleteOp, [])]

  // ---------------------------------------------------------------------
  // The walk over the configuration
  // ---------------------------------------------------------------------

  /** One key under one project, in the order the walk visits them. */
  datatype Item = Item(key: string, project: Project, op: string, block: OpBlock)

  function OpItems(key: string, p: Project, ops: seq<(string, OpBlock)>): seq<Item>
    decreases |ops|
  {
    if ops == [] then [] else [Item(key, p, ops[0].0, ops[0].1)] + OpItems(key, p, ops[1..])
  }

  /** Every project's keys in order; the `.defaults` entry is skipped, `.operations` is not. */
  function ItemsOf(key: string, p: Project): seq<Item> {
    if key == DefaultsKey then [] else OpItems(key, p, p.ops)
  }

  /**
   * The `.operations` entry is walked like any project: its operations
   * become items, and its key, which starts with a dot, matches the indices
   * starting with `.operations.`.
   */
  lemma OperationsWalked(p: Project)
    ensures ItemsOf(OperationsKey, p) == OpItems(OperationsKey, p, p.ops)
    ensures Pattern(OperationsKey, false) == "^\\." + "operations" + "\\..*$"
    ensures ExcludeClause(OperationsKey, false) == " --exclude " + "'" + Pattern(OperationsKey, false) + "'"
  {
    assert Word("operations") && OperationsKey == "." + "operations";
    DottedKeyPattern(OperationsKey, "operations");
  }

  function Items(entries: seq<(string, Project)>): seq<Item>
    decreases |entries|
  {
    if entries == [] then [] else ItemsOf(entries[0].0, entries[0].1) + Items(entries[1..])
  }

  /** The walk's state: the default command so far, the settings, the last `size` read, and the exception that stopped the walk. */
  datatype Acc = Acc(cmd: string, settings: Settings, size: Option<string>, failed: Option<Error>)

  predicate Allowed(it: Item) {
    it.op in AllowedOperations
  }

  /** Every field the walk reads for an operation is present. */
  predicate Complete(it: Item) {
    it.block.unit.Some? && it.block.count.Some? && it.block.sizeUnit.Some? && it.block.quota.Some?
    && it.project.rawRegex.Some?
  }

  /** The KeyError of the first missing field, in the order the fields are read. */
  function MissingField(it: Item): Error {
    if it.block.unit.None? then MissingKey("unit")
    else if it.block.count.None? then MissingKey("count")
    else if it.block.sizeUnit.None? then MissingKey("size_unit")
    else if it.block.quota.None? then MissingKey("quota")
    else MissingKey(RawRegexKey)
  }

  function PatternOf(it: Item): string
    requires Complete(it)
  {
    Pattern(it.key, it.project.rawRegex.value)
  }

  function ClauseOf(it: Item): string
    requires Complete(it)
  {
    ExcludeClause(it.key, it.project.rawRegex.value)
  }

  function LimitsOf(it: Item): Limits
    requires Complete(it)
  {
    map[it.block.unit.value := it.block.count.value][it.block.sizeUnit.value := it.block.quota.value]
  }

  /** One step of the walk: an operation that is not allowed is skipped; an allowed one is recorded or raises. */
  function Process(acc: Acc, it: Item): Acc {
    if !Allowed(it) then acc
    else if !Complete(it) then acc.(failed := Some(MissingField(it)))
    else match Get(acc.settings, it.op)
      case None => acc.(failed := Some(MissingKey(it.op)))
      case Some(table) =>
        Acc(acc.cmd + ClauseOf(it), Put(acc.settings, it.op, Put(table, PatternOf(it), LimitsOf(it))),
            Some(it.block.sizeUnit.value), None)
  }

  /** The walk, stopping at the first exception. */
  function Fold(acc: Acc, items: seq<Item>): Acc
    decreases |items|
  {
    if items == [] || acc.failed.Some? then acc else Fold(Process(acc, items[0]), items[1..])
  }

  // The walk stated item by item, independently of its order of evaluation.

  /** An allowed operation is recorded (rather than raising) exactly when all its fields are present. */
  predicate Accepted(it: Item) {
    Allowed(it) && Complete(it)
  }

  predicate Processable(items: seq<Item>) {
    forall i :: 0 <= i < |items| ==> Allowed(items[i]) ==> Complete(items[i])
  }

  /** The exclude clauses of the accepted items, in order. */
  function Excludes(items: seq<Item>): string
    decreases |items|
  {
    if items == [] then ""
    else (if Accepted(items[0]) then ClauseOf(items[0]) else "") + Excludes(items[1..])
  }

  /** The assignments `curator_settings['delete'][pattern] = limits` in order. */
  function Writes(items: seq<Item>): seq<(string, Limits)>
    decreases |items|
  {
    if items == [] then []
    else (if Accepted(items[0]) then [(PatternOf(items[0]), LimitsOf(items[0]))] else []) + Writes(items[1..])
  }

  /** The `size_unit` of the last accepted item. */
  function LastSize(items: seq<Item>): Option<string>
    decreases |items|
  {
    if items == [] then None
    else match LastSize(items[1..])
      case Some(s) => Some(s)
      case None => if Accepted(items[0]) then Some(items[0].block.sizeUnit.value) else None
  }

  function Latest(old_: Option<string>, new_: Option<string>): Option<string> {
    if new_.Some? then new_ else old_
  }

  /** The position of the first allowed item with a missing field. */
  function FirstMissing(items: seq<Item>): (r: nat)
    requires !Processable(items)
    ensures r < |items| && Allowed(items[r]) && !Complete(items[r])
    ensures Processable(items[..r])
    decreases |items|
  {
    if Allowed(items[0]) && !Complete(items[0]) then 0
    else
      assert !Processable(items[1..]) by {
        var i :| 0 <= i < |items| && Allowed(items[i]) && !Complete(items[i]);
        assert items[1..][i - 1] == items[i];
      }
      var r := 1 + FirstMissing(items[1..]);
      assert forall j :: 1 <= j < r ==> items[..r][j] == items[1..][..r - 1][j - 1];
      r
  }

  lemma {:induction false} ExcludesAppend(a: seq<Item>, b: seq<Item>)
    ensures Excludes(a + b) == Excludes(a) + Excludes(b)
    ensures Writes(a + b) == Writes(a) + Writes(b)
    decreases |a|
  {
    if a == [] {
      assert a + b == b;
    } else {
      assert (a + b)[0] == a[0] && (a + b)[1..] == a[1..] + b;
      ExcludesAppend(a[1..], b);
      var c := if Accepted(a[0]) then ClauseOf(a[0]) else "";
      assert Excludes(a + b) == c + (Excludes(a[1..]) + Excludes(b));
      assert c + (Excludes(a[1..]) + Excludes(b)) == (c + Excludes(a[1..])) + Excludes(b);
      var w := if Accepted(a[0]) then [(PatternOf(a[0]), LimitsOf(a[0]))] else [];
      assert Writes(a + b) == w + (Writes(a[1..]) + Writes(b));
      assert w + (Writes(a[1..]) + Writes(b)) == (w + Writes(a[1..])) + Writes(b);
    }
  }

  /**
   * A walk over items whose allowed operations are all complete succeeds; the
   * default command gains each accepted item's clause in order, the `delete`
   * table receives each accepted item's assignment in order, and `size` is
   * the last accepted item's size unit.
   */
  lemma {:induction false} FoldSucceeds(acc: Acc, items: seq<Item>, t: Table)
    requires acc.failed.None? && Get(acc.settings, DeleteOp) == Some(t)
    requires Processable(items)
    ensures Fold(acc, items).failed.None?
    ensures Fold(acc, items).cmd == acc.cmd + Excludes(items)
    ensures Fold(acc, items).settings == Put(acc.settings, DeleteOp, PutAll(t, Writes(items)))
    ensures Fold(acc, items).size == Latest(acc.size, LastSize(items))
    decreases |items|, 2
  {
    if items == [] {
      PutSame(acc.settings, DeleteOp, t);
    } else if Accepted(items[0]) {
      FoldAccepted(acc, items, t);
    } else {
      ProcessableTail(items);
      assert Process(acc, items[0]) == acc;
      assert Fold(acc, items) == Fold(acc, items[1..]);
      FoldSucceeds(acc, items[1..], t);
      assert Excludes(items) == Excludes(items[1..]) && Writes(items) == Writes(items[1..]);
      assert LastSize(items) == LastSize(items[1..]);
    }
  }

  lemma {:induction false} FoldAccepted(acc: Acc, items: seq<Item>, t: Table)
    requires acc.failed.None? && Get(acc.settings, DeleteOp) == Some(t)
    requires Processable(items) && items != [] && Accepted(items[0])
    ensures Fold(acc, items).failed.None?
    ensures Fold(acc, items).cmd == acc.cmd + Excludes(items)
    ensures Fold(acc, items).settings == Put(acc.settings, DeleteOp, PutAll(t, Writes(items)))
    ensures Fold(acc, items).size == Latest(acc.size, LastSize(items))
    decreases |items|, 1
  {
    FoldAcceptedCmd(acc, items, t);
    FoldAcceptedSettings(acc, items, t);
  }

  /** The walk after an accepted first item continues from the state that item leaves. */
  lemma FoldAcceptedStep(acc: Acc, items: seq<Item>, t: Table)
    requires acc.failed.None? && Get(acc.settings, DeleteOp) == Some(t)
    requires Processable(items) && items != [] && Accepted(items[0])
    ensures var t' := Put(t, PatternOf(items[0]), LimitsOf(items[0]));
      var acc' := Acc(acc.cmd + ClauseOf(items[0]), Put(acc.settings, DeleteOp, t'), Some(items[0].block.sizeUnit.value), None);
      && Get(acc'.settings, DeleteOp) == Some(t')
      && Fold(acc, items) == Fold(acc', items[1..])
      && Processable(items[1..])
  {
    ProcessableTail(items);
    ProcessAccepted(acc, items[0], t);
    FoldCons(acc, items);
  }

  lemma {:induction false} FoldAcceptedCmd(acc: Acc, items: seq<Item>, t: Table)
    requires acc.failed.None? && Get(acc.settings, DeleteOp) == Some(t)
    requires Processable(items) && items != [] && Accepted(items[0])
    ensures Fold(acc, items).failed.None?
    ensures Fold(acc, items).cmd == acc.cmd + Excludes(items)
    ensures Fold(acc, items).size == Latest(acc.size, LastSize(items))
    decreases |items|, 0
  {
    var it, rest := items[0], items[1..];
    var t' := Put(t, PatternOf(it), LimitsOf(it));
    var acc' := Acc(acc.cmd + ClauseOf(it), Put(acc.settings, DeleteOp, t'), Some(it.block.sizeUnit.value), None);
    FoldAcceptedStep(acc, items, t);
    FoldSucceeds(acc', rest, t');
    AcceptedHead(items);
    AppendAssoc(acc.cmd, ClauseOf(it), Excludes(rest));
  }

  lemma {:induction false} FoldAcceptedSettings(acc: Acc, items: seq<Item>, t: Table)
    requires acc.failed.None? && Get(acc.settings, DeleteOp) == Some(t)
    requires Processable(items) && items != [] && Accepted(items[0])
    ensures Fold(acc, items).settings == Put(acc.settings, DeleteOp, PutAll(t, Writes(items)))
    decreases |items|, 0
  {
    var it, rest := items[0], items[1..];
    var t' := Put(t, PatternOf(it), LimitsOf(it));
    var acc' := Acc(acc.cmd + ClauseOf(it), Put(acc.settings, DeleteOp, t'), Some(it.block.sizeUnit.value), None);
    FoldAcceptedStep(acc, items, t);
    FoldSucceeds(acc', rest, t');
    PutPut(acc.settings, DeleteOp, t', PutAll(t', Writes(rest)));
    AcceptedHead(items);
    assert PutAll(t, Writes(items)) == PutAll(t', Writes(rest));
  }

  lemma FoldCons(acc: Acc, items: seq<Item>)
    requires acc.failed.None? && items != []
    ensures Fold(acc, items) == Fold(Process(acc, items[0]), items[1..])
  {
  }

  lemma ProcessableTail(items: seq<Item>)
    requires items != [] && Processable(items)
    ensures Processable(items[1..])
  {
    forall i | 0 <= i < |items| - 1 && Allowed(items[1..][i]) ensures Complete(items[1..][i]) {
      assert items[1..][i] == items[i + 1];
    }
  }

  /** An accepted item extends the command, records its assignment and sets `size`. */
  lemma ProcessAccepted(acc: Acc, it: Item, t: Table)
    requires acc.failed.None? && Get(acc.settings, DeleteOp) == Some(t) && Accepted(it)
    ensures var t' := Put(t, PatternOf(it), LimitsOf(it));
      && Process(acc, it) == Acc(acc.cmd + ClauseOf(it), Put(acc.settings, DeleteOp, t'), Some(it.block.sizeUnit.value), None)
      && Get(Process(acc, it).settings, DeleteOp) == Some(t')
  {
    assert it.op == DeleteOp;
    PutGet(acc.settings, DeleteOp, Put(t, PatternOf(it), LimitsOf(it)), DeleteOp);
  }

  /** The reference functions on a list starting with an accepted item. */
  lemma AcceptedHead(items: seq<Item>)
    requires items != [] && Accepted(items[0])
    ensures Excludes(items) == ClauseOf(items[0]) + Excludes(items[1..])
    ensures Writes(items)[0] == (PatternOf(items[0]), LimitsOf(items[0])) && Writes(items)[1..] == Writes(items[1..])
    ensures |Writes(items)| > 0
    ensures LastSize(items) == Latest(Some(items[0].block.sizeUnit.value), LastSize(items[1..]))
  {
  }

  /** Assigning a key the value it already holds changes nothing. */
  lemma {:induction false} PutSame<V>(d: Dict<V>, k: string, v: V)
    requires Get(d, k) == Some(v)
    ensures Put(d, k, v) == d
    decreases |d|
  {
    if d[0].0 != k {
      PutSame(d[1..], k, v);
    }
  }

  /**
   * A walk that meets an allowed operation with a missing field raises that
   * field's KeyError; `curator_settings` then holds the assignments of the
   * items before it, and the default command is discarded with the walk.
   */
  lemma {:induction false} FoldFails(acc: Acc, items: seq<Item>, t: Table)
    requires acc.failed.None? && Get(acc.settings, DeleteOp) == Some(t)
    requires !Processable(items)
    ensures var n := FirstMissing(items);
      Fold(acc, items).failed == Some(MissingField(items[n]))
      && Fold(acc, items).settings == Put(acc.settings, DeleteOp, PutAll(t, Writes(items[..n])))
  {
    var n := FirstMissing(items);
    var pre, rest := items[..n], items[n..];
    assert items == pre + rest;
    FoldSucceeds(acc, pre, t);
    FoldAppend(acc, pre, rest);
    var mid := Fold(acc, pre);
    assert rest[0] == items[n];
    assert Process(mid, rest[0]).failed == Some(MissingField(items[n]));
  }

  /** Walking a + b is walking a, then walking b from where a stopped. */
  lemma {:induction false} FoldAppend(acc: Acc, a: seq<Item>, b: seq<Item>)
    ensures Fold(acc, a + b) == Fold(Fold(acc, a), b)
    decreases |a|
  {
    if a == [] {
      assert a + b == b;
    } else if acc.failed.Some? {
      assert Fold(acc, b) == acc;
    } else {
      assert (a + b)[0] == a[0] && (a + b)[1..] == a[1..] + b;
      FoldAppend(Process(acc, a[0]), a[1..], b);
    }
  }

  // ---------------------------------------------------------------------
  // The emission
  // ---------------------------------------------------------------------

  /** One recorded pattern with its operation and thresholds, in the order the emission visits them. */
  datatype Target = Target(op: string, pattern: string, limits: Limits)

  function TableTargets(op: string, table: Table): (r: seq<Target>)
    ensures |r| == |table|
    decreases |table|
  {
    if table == [] then [] else [Target(op, table[0].0, table[0].1)] + TableTargets(op, table[1..])
  }

  function Targets(settings: Settings): seq<Target>
    decreases |settings|
  {
    if settings == [] then [] else TableTargets(settings[0].0, settings[0].1) + Targets(settings[1..])
  }

  lemma {:induction false} TableTargetsAt(op: string, table: Table, i: nat)
    requires i < |table|
    ensures TableTargets(op, table)[i] == Target(op, table[i].0, table[i].1)
    decreases |table|
  {
    if i > 0 {
      TableTargetsAt(op, table[1..], i - 1);
    }
  }

  /** The age unit a pattern's command uses: months when the thresholds name months, days otherwise. */
  function AgeUnit(limits: Limits): string {
    if "months" in limits then "months" else "days"
  }

  /** The commands emitted so far, and the exception that stopped the emission. */
  datatype Emission = Emission(cmds: seq<string>, failed: Option<Error>)

  /**
   * The two commands of one pattern. The age lookup comes first; the disk
   * command reads `size`, the last size unit the walk read, so it raises
   * after the age command has been appended.
   */
  function EmitTarget(e: Emission, t: Target, level: string, conInfo: string, size: Option<string>): Emission {
    var unit := AgeUnit(t.limits);
    if unit !in t.limits then e.(failed := Some(MissingKey(unit)))
    else
      var age := AgeCommand(level, conInfo, t.op, t.pattern, unit, t.limits[unit]);
      if size.None? then Emission(e.cmds + [age], Some(UnboundLocal("size")))
      else if size.value !in t.limits then Emission(e.cmds + [age], Some(MissingKey(size.value)))
      else Emission(e.cmds + [age, DiskCommand(level, conInfo, t.op, t.pattern, t.limits[size.value])], None)
  }

  function Emit(e: Emission, targets: seq<Target>, level: string, conInfo: string, size: Option<string>): Emission
    decreases |targets|
  {
    if targets == [] || e.failed.Some? then e
    else Emit(EmitTarget(e, targets[0], level, conInfo, size), targets[1..], level, conInfo, size)
  }

  // The emission stated pattern by pattern.

  /** Both lookups of a pattern's commands succeed. */
  predicate Emittable(t: Target, size: Option<string>) {
    AgeUnit(t.limits) in t.limits && size.Some? && size.value in t.limits
  }

  predicate AllEmittable(ts: seq<Target>, size: Option<string>) {
    forall i :: 0 <= i < |ts| ==> Emittable(ts[i], size)
  }

  function AgeOf(t: Target, level: string, conInfo: string): string
    requires AgeUnit(t.limits) in t.limits
  {
    AgeCommand(level, conInfo, t.op, t.pattern, AgeUnit(t.limits), t.limits[AgeUnit(t.limits)])
  }

  function DiskOf(t: Target, level: string, conInfo: string, s: string): string
    requires s in t.limits
  {
    DiskCommand(level, conInfo, t.op, t.pattern, t.limits[s])
  }

  /** The age and disk-space command of one pattern, when it is emittable. */
  function PairOf(t: Target, level: string, conInfo: string, size: Option<string>): (r: seq<string>)
    ensures |r| == if Emittable(t, size) then 2 else 0
  {
    if Emittable(t, size) then [AgeOf(t, level, conInfo), DiskOf(t, level, conInfo, size.value)] else []
  }

  /** The age and disk-space command of each emittable pattern, in order. */
  function Pairs(ts: seq<Target>, level: string, conInfo: string, size: Option<string>): seq<string>
    decreases |ts|
  {
    if ts == [] then [] else PairOf(ts[0], level, conInfo, size) + Pairs(ts[1..], level, conInfo, size)
  }

  lemma PairsIndex(ts: seq<Target>, level: string, conInfo: string, size: Option<string>, i: nat)
    requires AllEmittable(ts, size) && i < |ts|
    ensures |Pairs(ts, level, conInfo, size)| == 2 * |ts|
    ensures Pairs(ts, level, conInfo, size)[2 * i] == PairOf(ts[i], level, conInfo, size)[0]
    ensures Pairs(ts, level, conInfo, size)[2 * i + 1] == PairOf(ts[i], level, conInfo, size)[1]
  {
    var f := t => PairOf(t, level, conInfo, size);
    PairsFlat(ts, level, conInfo, size);
    forall j | 0 <= j < |ts| ensures |f(ts[j])| == 2 {
      PairOfLength(ts[j], level, conInfo, size);
    }
    FlatIndex(f, ts, i);
  }

  lemma {:induction false} PairsFlat(ts: seq<Target>, level: string, conInfo: string, size: Option<string>)
    ensures Pairs(ts, level, conInfo, size) == Flat(t => PairOf(t, level, conInfo, size), ts)
    decreases |ts|
  {
    if ts != [] {
      PairsFlat(ts[1..], level, conInfo, size);
    }
  }

  lemma PairOfLength(t: Target, level: string, conInfo: string, size: Option<string>)
    requires Emittable(t, size)
    ensures |PairOf(t, level, conInfo, size)| == 2
  {
  }

  /** Pattern i's age command is at position 2i and its disk-space command at 2i + 1. */
  lemma PairsAt(ts: seq<Target>, level: string, conInfo: string, size: Option<string>)
    requires AllEmittable(ts, size)
    ensures |Pairs(ts, level, conInfo, size)| == 2 * |ts|
    ensures forall i :: 0 <= i < |ts| ==>
      && Pairs(ts, level, conInfo, size)[2 * i] == AgeOf(ts[i], level, conInfo)
      && Pairs(ts, level, conInfo, size)[2 * i + 1] == DiskOf(ts[i], level, conInfo, size.value)
  {
    if ts == [] {
    } else {
      PairsIndex(ts, level, conInfo, size, 0);
    }
    forall i | 0 <= i < |ts|
      ensures Pairs(ts, level, conInfo, size)[2 * i] == AgeOf(ts[i], level, conInfo)
      ensures Pairs(ts, level, conInfo, size)[2 * i + 1] == DiskOf(ts[i], level, conInfo, size.value)
    {
      PairsIndex(ts, level, conInfo, size, i);
    }
  }

  lemma AllEmittableTail(ts: seq<Target>, size: Option<string>)
    requires ts != [] && AllEmittable(ts, size)
    ensures AllEmittable(ts[1..], size)
  {
    forall i | 0 <= i < |ts| - 1 ensures Emittable(ts[1..][i], size) {
      assert ts[1..][i] == ts[i + 1];
    }
  }

  /** When every pattern is emittable, the emission appends every pattern's two commands and succeeds. */
  lemma {:induction false} EmitSucceeds(e: Emission, ts: seq<Target>, level: string, conInfo: string, size: Option<string>)
    requires e.failed.None? && AllEmittable(ts, size)
    ensures Emit(e, ts, level, conInfo, size).failed.None?
    ensures Emit(e, ts, level, conInfo, size).cmds == e.cmds + Pairs(ts, level, conInfo, size)
    decreases |ts|
  {
    if ts == [] {
      assert e.cmds + [] == e.cmds;
    } else {
      AllEmittableTail(ts, size);
      var t := ts[0];
      var head := PairOf(t, level, conInfo, size);
      var e' := EmitTarget(e, t, level, conInfo, size);
      EmitTargetOk(e, t, level, conInfo, size);
      EmitCons(e, ts, level, conInfo, size);
      EmitSucceeds(e', ts[1..], level, conInfo, size);
      assert Pairs(ts, level, conInfo, size) == head + Pairs(ts[1..], level, conInfo, size);
      AppendAssoc(e.cmds, head, Pairs(ts[1..], level, conInfo, size));
    }
  }

  lemma EmitTargetOk(e: Emission, t: Target, level: string, conInfo: string, size: Option<string>)
    requires Emittable(t, size)
    ensures EmitTarget(e, t, level, conInfo, size) == Emission(e.cmds + PairOf(t, level, conInfo, size), None)
  {
  }

  lemma EmitCons(e: Emission, ts: seq<Target>, level: string, conInfo: string, size: Option<string>)
    requires e.failed.None? && ts != []
    ensures Emit(e, ts, level, conInfo, size) == Emit(EmitTarget(e, ts[0], level, conInfo, size), ts[1..], level, conInfo, size)
  {
  }

  /** The exception a pattern that is not emittable raises. */
  function TargetError(t: Target, size: Option<string>): Error {
    if AgeUnit(t.limits) !in t.limits then MissingKey(AgeUnit(t.limits))
    else if size.None? then UnboundLocal("size")
    else MissingKey(size.value)
  }

  /** The position of the first pattern that is not emittable. */
  function FirstBlocked(ts: seq<Target>, size: Option<string>): (r: nat)
    requires !AllEmittable(ts, size)
    ensures r < |ts| && !Emittable(ts[r], size) && AllEmittable(ts[..r], size)
    decreases |ts|
  {
    if !Emittable(ts[0], size) then 0
    else
      assert !AllEmittable(ts[1..], size) by {
        var i :| 0 <= i < |ts| && !Emittable(ts[i], size);
        assert ts[1..][i - 1] == ts[i];
      }
      var r := 1 + FirstBlocked(ts[1..], size);
      assert forall j :: 1 <= j < r ==> ts[..r][j] == ts[1..][..r - 1][j - 1];
      r
  }

  lemma EmitAppend(e: Emission, a: seq<Target>, b: seq<Target>, level: string, conInfo: string, size: Option<string>)
    ensures Emit(e, a + b, level, conInfo, size) == Emit(Emit(e, a, level, conInfo, size), b, level, conInfo, size)
    decreases |a|
  {
    if a == [] {
      assert a + b == b;
    } else if e.failed.None? {
      assert (a + b)[0] == a[0] && (a + b)[1..] == a[1..] + b;
      EmitAppend(EmitTarget(e, a[0], level, conInfo, size), a[1..], b, level, conInfo, size);
    }
  }

  /**
   * An emission that meets a pattern it cannot emit raises that pattern's
   * error; the commands of the patterns before it stay appended, and so does
   * the blocked pattern's age command when only its disk lookup fails.
   */
  lemma EmitFails(e: Emission, ts: seq<Target>, level: string, conInfo: string, size: Option<string>)
    requires e.failed.None? && !AllEmittable(ts, size)
    ensures var n := FirstBlocked(ts, size);
      && Emit(e, ts, level, conInfo, size).failed == Some(TargetError(ts[n], size))
      && Emit(e, ts, level, conInfo, size).cmds ==
           e.cmds + Pairs(ts[..n], level, conInfo, size)
           + (if AgeUnit(ts[n].limits) in ts[n].limits then [AgeOf(ts[n], level, conInfo)] else [])
  {
    var n := FirstBlocked(ts, size);
    assert ts == ts[..n] + ts[n..];
    EmitAppend(e, ts[..n], ts[n..], level, conInfo, size);
    EmitSucceeds(e, ts[..n], level, conInfo, size);
    var mid := Emit(e, ts[..n], level, conInfo, size);
    assert ts[n..][0] == ts[n];
    EmitTargetBlocked(mid, ts[n], level, conInfo, size);
    EmitStops(mid, ts[n..], level, conInfo, size);
    AppendAssoc(e.cmds, Pairs(ts[..n], level, conInfo, size),
      if AgeUnit(ts[n].limits) in ts[n].limits then [AgeOf(ts[n], level, conInfo)] else []);
  }

  /** A pattern that is not emittable raises its error, after its age command when the age lookup succeeds. */
  lemma EmitTargetBlocked(e: Emission, t: Target, level: string, conInfo: string, size: Option<string>)
    requires !Emittable(t, size)
    ensures EmitTarget(e, t, level, conInfo, size).failed == Some(TargetError(t, size))
    ensures EmitTarget(e, t, level, conInfo, size).cmds ==
      e.cmds + (if AgeUnit(t.limits) in t.limits then [AgeOf(t, level, conInfo)] else [])
  {
  }

  /** The emission stops at a pattern that raises. */
  lemma EmitStops(e: Emission, ts: seq<Target>, level: string, conInfo: string, size: Option<string>)
    requires e.failed.None? && ts != [] && EmitTarget(e, ts[0], level, conInfo, size).failed.Some?
    ensures Emit(e, ts, level, conInfo, size) == EmitTarget(e, ts[0], level, conInfo, size)
  {
  }

  // ---------------------------------------------------------------------
  // The whole call
  // ---------------------------------------------------------------------

  /** What `build_cmd` leaves behind: the settings, the command list, and the exception it raised, if any. */
  datatype BuildState = BuildState(settings: Settings, commands: seq<string>, failed: Option<Error>)

  /**
   * `build_cmd` on an object holding `conf`, `settings` and `commands`. The
   * default command is appended only once the walk has finished; an
   * exception in the walk leaves the command list as it was.
   */
  function BuildCmd(conf: Config, env: map<string, string>, level: string, settings: Settings, commands: seq<string>): BuildState {
    match DefaultIndex(conf, env, level)
    case Err(e) => BuildState(settings, commands, Some(e))
    case Ok(d) =>
      var acc := Fold(Acc(d, settings, None, None), Items(conf.entries));
      if acc.failed.Some? then BuildState(acc.settings, commands, acc.failed)
      else
        var e := Emit(Emission(commands + [acc.cmd], None), Targets(acc.settings), level, ConnectionInfo(env), acc.size);
        BuildState(acc.settings, e.cmds, e.failed)
  }

  /** The `delete` table a walk from the initial settings records. */
  function Recorded(items: seq<Item>): Table {
    PutAll([], Writes(items))
  }

  /**
   * The recorded table holds each pattern once, in the order of its first
   * assignment, with the thresholds of its last assignment: a later
   * operation whose key resolves to the same pattern overrides an earlier one.
   */
  lemma RecordedTable(items: seq<Item>)
    ensures NoDup(Keys(Recorded(items)))
    ensures Keys(Recorded(items)) == KeysAfter([], Keys(Writes(items)))
    ensures forall p :: Get(Recorded(items), p) == LastWrite(Writes(items), p)
  {
    var t: Table := [];
    PutAllKeys(t, Writes(items));
    forall p ensures Get(Recorded(items), p) == LastWrite(Writes(items), p) {
      PutAllGet(t, Writes(items), p);
    }
  }

  /** A walk from the initial settings whose allowed operations are complete. */
  lemma FreshWalk(d: string, items: seq<Item>)
    requires Processable(items)
    ensures var acc := Fold(Acc(d, InitialSettings, None, None), items);
      && acc.failed.None?
      && acc.cmd == d + Excludes(items)
      && acc.settings == [(DeleteOp, Recorded(items))]
      && acc.size == LastSize(items)
  {
    var t: Table := [];
    assert Get(InitialSettings, DeleteOp) == Some(t);
    FoldSucceeds(Acc(d, InitialSettings, None, None), items, t);
  }

  lemma OneTable(t: Table)
    ensures Targets([(DeleteOp, t)]) == TableTargets(DeleteOp, t)
  {
    var s: Settings := [(DeleteOp, t)];
    assert s[1..] == [];
    assert TableTargets(DeleteOp, t) + [] == TableTargets(DeleteOp, t);
  }

  /**
   * A fresh `build_cmd` whose walk and emission both succeed: the settings hold
   * the recorded table, and the command list is the default command extended
   * with every accepted operation's exclude clause, then each recorded
   * pattern's age and disk-space commands.
   */
  lemma FreshBuildSucceeds(conf: Config, env: map<string, string>, level: string)
    requires DefaultIndex(conf, env, level).Ok?
    requires Processable(Items(conf.entries))
    requires AllEmittable(TableTargets(DeleteOp, Recorded(Items(conf.entries))), LastSize(Items(conf.entries)))
    ensures var items := Items(conf.entries);
      var b := BuildCmd(conf, env, level, InitialSettings, []);
      && b.failed.None?
      && b.settings == [(DeleteOp, Recorded(items))]
      && b.commands == [DefaultIndex(conf, env, level).value + Excludes(items)]
           + Pairs(TableTargets(DeleteOp, Recorded(items)), level, ConnectionInfo(env), LastSize(items))
  {
    var items := Items(conf.entries);
    var d := DefaultIndex(conf, env, level).value;
    FreshWalk(d, items);
    OneTable(Recorded(items));
    EmitSucceeds(Emission([] + [d + Excludes(items)], None), TableTargets(DeleteOp, Recorded(items)),
                 level, ConnectionInfo(env), LastSize(items));
    assert [] + [d + Excludes(items)] == [d + Excludes(items)];
  }

  /** The commands of a fresh successful build: one default command, then two per recorded pattern. */
  lemma FreshBuildShape(conf: Config, env: map<string, string>, level: string)
    requires DefaultIndex(conf, env, level).Ok?
    requires Processable(Items(conf.entries))
    requires AllEmittable(TableTargets(DeleteOp, Recorded(Items(conf.entries))), LastSize(Items(conf.entries)))
    ensures var items := Items(conf.entries);
      var t := Recorded(items);
      var ts := TableTargets(DeleteOp, t);
      var c := BuildCmd(conf, env, level, InitialSettings, []).commands;
      && |c| == 1 + 2 * |t|
      && c[0] == DefaultIndex(conf, env, level).value + Excludes(items)
      && forall i :: 0 <= i < |t| ==>
           && ts[i] == Target(DeleteOp, t[i].0, t[i].1)
           && c[1 + 2 * i] == AgeOf(ts[i], level, ConnectionInfo(env))
           && c[2 + 2 * i] == DiskOf(ts[i], level, ConnectionInfo(env), LastSize(items).value)
  {
    var items := Items(conf.entries);
    var t := Recorded(items);
    var ts := TableTargets(DeleteOp, t);
    FreshBuildSucceeds(conf, env, level);
    CommandsShape(DefaultIndex(conf, env, level).value + Excludes(items), ts, level, ConnectionInfo(env), LastSize(items));
    forall i | 0 <= i < |t| ensures ts[i] == Target(DeleteOp, t[i].0, t[i].1) {
      TableTargetsAt(DeleteOp, t, i);
    }
  }

  /** The default command followed by the pairs: pattern i's commands sit at positions 1 + 2i and 2 + 2i. */
  lemma CommandsShape(head: string, ts: seq<Target>, level: string, conInfo: string, size: Option<string>)
    requires AllEmittable(ts, size)
    ensures var c := [head] + Pairs(ts, level, conInfo, size);
      && |c| == 1 + 2 * |ts|
      && forall i :: 0 <= i < |ts| ==>
           && c[1 + 2 * i] == AgeOf(ts[i], level, conInfo)
           && c[2 + 2 * i] == DiskOf(ts[i], level, conInfo, size.value)
  {
    PairsAt(ts, level, conInfo, size);
    ConsPairs(head, Pairs(ts, level, conInfo, size), |ts|);
  }

  /** A fresh build whose walk meets an incomplete operation raises its KeyError and leaves no command. */
  lemma FreshBuildWalkFails(conf: Config, env: map<string, string>, level: string)
    requires DefaultIndex(conf, env, level).Ok?
    requires !Processable(Items(conf.entries))
    ensures var items := Items(conf.entries);
      var b := BuildCmd(conf, env, level, InitialSettings, []);
      && b.failed == Some(MissingField(items[FirstMissing(items)]))
      && b.commands == []
  {
    var t: Table := [];
    assert Get(InitialSettings, DeleteOp) == Some(t);
    FoldFails(Acc(DefaultIndex(conf, env, level).value, InitialSettings, None, None), Items(conf.entries), t);
  }

  /**
   * A fresh build whose emission meets a pattern it cannot emit raises that
   * pattern's error, after the default command, the pairs of the patterns
   * before it and, when only the disk lookup fails, its age command.
   */
  lemma FreshBuildEmitFails(conf: Config, env: map<string, string>, level: string)
    requires DefaultIndex(conf, env, level).Ok?
    requires Processable(Items(conf.entries))
    requires !AllEmittable(TableTargets(DeleteOp, Recorded(Items(conf.entries))), LastSize(Items(conf.entries)))
    ensures var items := Items(conf.entries);
      var ts := TableTargets(DeleteOp, Recorded(items));
      var size := LastSize(items);
      var n := FirstBlocked(ts, size);
      var b := BuildCmd(conf, env, level, InitialSettings, []);
      && b.failed == Some(TargetError(ts[n], size))
      && b.settings == [(DeleteOp, Recorded(items))]
      && b.commands == [DefaultIndex(conf, env, level).value + Excludes(items)]
           + Pairs(ts[..n], level, ConnectionInfo(env), size)
           + (if AgeUnit(ts[n].limits) in ts[n].limits then [AgeOf(ts[n], level, ConnectionInfo(env))] else [])
  {
    var items := Items(conf.entries);
    var d := DefaultIndex(conf, env, level).value;
    FreshWalk(d, items);
    OneTable(Recorded(items));
    EmitFails(Emission([] + [d + Excludes(items)], None), TableTargets(DeleteOp, Recorded(items)),
              level, ConnectionInfo(env), LastSize(items));
    assert [] + [d + Excludes(items)] == [d + Excludes(items)];
  }

  // ---------------------------------------------------------------------
  // When the emission succeeds, and when it does not
  // ---------------------------------------------------------------------

  /** Thresholds both of whose lookups succeed when `size` is s. */
  predicate GoodLimits(l: Limits, s: string) {
    AgeUnit(l) in l && s in l
  }

  predicate AllGood(t: Table, s: string) {
    forall i :: 0 <= i < |t| ==> GoodLimits(t[i].1, s)
  }

  lemma {:induction false} PutGood(t: Table, k: string, v: Limits, s: string)
    requires AllGood(t, s) && GoodLimits(v, s)
    ensures AllGood(Put(t, k, v), s)
    decreases |t|
  {
    if t != [] && t[0].0 != k {
      assert AllGood(t[1..], s) by {
        forall i | 0 <= i < |t| - 1 ensures GoodLimits(t[1..][i].1, s) {
          assert t[1..][i] == t[i + 1];
        }
      }
      PutGood(t[1..], k, v, s);
      var r := Put(t[1..], k, v);
      forall i | 0 <= i < |r| + 1 ensures GoodLimits(([t[0]] + r)[i].1, s) {
        if i > 0 {
          assert ([t[0]] + r)[i] == r[i - 1];
        }
      }
    } else if t != [] {
      forall i | 0 <= i < |t| ensures GoodLimits(([(k, v)] + t[1..])[i].1, s) {
        if i > 0 {
          assert ([(k, v)] + t[1..])[i] == t[i];
        }
      }
    }
  }

  lemma {:induction false} PutAllGood(t: Table, w: seq<(string, Limits)>, s: string)
    requires AllGood(t, s) && forall j :: 0 <= j < |w| ==> GoodLimits(w[j].1, s)
    ensures AllGood(PutAll(t, w), s)
    decreases |w|
  {
    if w != [] {
      PutGood(t, w[0].0, w[0].1, s);
      forall j | 0 <= j < |w| - 1 ensures GoodLimits(w[1..][j].1, s) {
        assert w[1..][j] == w[j + 1];
      }
      PutAllGood(Put(t, w[0].0, w[0].1), w[1..], s);
    }
  }

  /** Every accepted operation counts in days or months and uses the size unit s. */
  predicate Uniform(items: seq<Item>, s: string) {
    forall i :: 0 <= i < |items| ==> Accepted(items[i]) ==>
      items[i].block.sizeUnit == Some(s) && items[i].block.unit.value in {"days", "months"}
  }

  lemma {:induction false} UniformWrites(items: seq<Item>, s: string)
    requires Uniform(items, s)
    ensures forall j :: 0 <= j < |Writes(items)| ==> GoodLimits(Writes(items)[j].1, s)
    ensures LastSize(items) == None || LastSize(items) == Some(s)
    ensures LastSize(items).None? ==> Writes(items) == []
    decreases |items|
  {
    if items != [] {
      assert Uniform(items[1..], s) by {
        forall i | 0 <= i < |items| - 1 && Accepted(items[1..][i])
          ensures items[1..][i].block.sizeUnit == Some(s) && items[1..][i].block.unit.value in {"days", "months"}
        {
          assert items[1..][i] == items[i + 1];
        }
      }
      UniformWrites(items[1..], s);
      if Accepted(items[0]) {
        var l := LimitsOf(items[0]);
        assert items[0].block.sizeUnit == Some(s);
        assert s in l;
        assert AgeUnit(l) in l;
        var w := [(PatternOf(items[0]), l)] + Writes(items[1..]);
        assert Writes(items) == w;
        forall j | 0 <= j < |w| ensures GoodLimits(w[j].1, s) {
          if j > 0 {
            assert w[j] == Writes(items[1..])[j - 1];
          }
        }
      } else {
        assert Writes(items) == Writes(items[1..]);
      }
    }
  }

  /**
   * When every accepted operation counts in days or months and all use the
   * same size unit, every recorded pattern can be emitted.
   */
  lemma UniformEmittable(items: seq<Item>, s: string)
    requires Uniform(items, s)
    ensures AllEmittable(TableTargets(DeleteOp, Recorded(items)), LastSize(items))
  {
    UniformWrites(items, s);
    var t: Table := [];
    PutAllGood(t, Writes(items), s);
    var ts := TableTargets(DeleteOp, Recorded(items));
    if LastSize(items).None? {
      assert Recorded(items) == [];
    } else {
      forall i | 0 <= i < |ts| ensures Emittable(ts[i], LastSize(items)) {
        TableTargetsAt(DeleteOp, Recorded(items), i);
      }
    }
  }

  lemma PutAllOne<V>(k: string, v: V)
    ensures PutAll([], [(k, v)]) == [(k, v)]
  {
    var w := [(k, v)];
    assert w[1..] == [];
    var e: Dict<V> := [];
    assert PutAll(e, w) == PutAll(Put(e, k, v), []);
  }

  lemma PutAllPair<V>(k1: string, v1: V, k2: string, v2: V)
    requires k1 != k2
    ensures PutAll([], [(k1, v1), (k2, v2)]) == [(k1, v1), (k2, v2)]
  {
    var w := [(k1, v1), (k2, v2)];
    assert w[1..] == [(k2, v2)];
    var e: Dict<V> := [];
    var d1 := Put(e, k1, v1);
    assert d1 == [(k1, v1)];
    assert PutAll(e, w) == PutAll(d1, [(k2, v2)]);
    var w2 := [(k2, v2)];
    assert w2[1..] == [];
    var d2 := Put(d1, k2, v2);
    assert d1[1..] == [];
    assert d2 == [(k1, v1)] + Put(e, k2, v2);
    assert PutAll(d1, w2) == PutAll(d2, []);
  }

  lemma TargetsOfPair(op: string, k1: string, l1: Limits, k2: string, l2: Limits)
    ensures TableTargets(op, [(k1, l1), (k2, l2)]) == [Target(op, k1, l1), Target(op, k2, l2)]
  {
    var t: Table := [(k1, l1), (k2, l2)];
    var rest: Table := t[1..];
    assert rest == [(k2, l2)];
    var none: Table := rest[1..];
    assert none == [];
  }

  lemma TargetsOfOne(op: string, k: string, l: Limits)
    ensures TableTargets(op, [(k, l)]) == [Target(op, k, l)]
  {
    var t: Table := [(k, l)];
    var none: Table := t[1..];
    assert none == [];
  }

  /** The reference functions of a walk over one accepted item. */
  lemma OneItem(it: Item)
    requires Accepted(it)
    ensures Processable([it]) && Excludes([it]) == ClauseOf(it) && LastSize([it]) == it.block.sizeUnit
    ensures Recorded([it]) == [(PatternOf(it), LimitsOf(it))]
    ensures TableTargets(DeleteOp, Recorded([it])) == [Target(DeleteOp, PatternOf(it), LimitsOf(it))]
  {
    var items := [it];
    assert items[1..] == [];
    assert Writes(items) == [(PatternOf(it), LimitsOf(it))];
    PutAllOne(PatternOf(it), LimitsOf(it));
    TargetsOfOne(DeleteOp, PatternOf(it), LimitsOf(it));
  }

  /**
   * A single operation counting in neither days nor months (weeks, say) is
   * recorded, and the emission then looks up `days`, which its thresholds do
   * not hold: the KeyError comes after the default command was appended.
   */
  lemma MissingAgeUnit(conf: Config, env: map<string, string>, level: string, it: Item)
    requires DefaultIndex(conf, env, level).Ok?
    requires Items(conf.entries) == [it] && Accepted(it)
    requires it.block.unit.value !in {"days", "months"} && it.block.sizeUnit.value !in {"days", "months"}
    ensures var b := BuildCmd(conf, env, level, InitialSettings, []);
      && b.failed == Some(MissingKey("days"))
      && b.settings == [(DeleteOp, [(PatternOf(it), LimitsOf(it))])]
      && b.commands == [DefaultIndex(conf, env, level).value + ClauseOf(it)]
  {
    OneItem(it);
    var tg := Target(DeleteOp, PatternOf(it), LimitsOf(it));
    assert "months" !in tg.limits && "days" !in tg.limits;
    assert !Emittable([tg][0], LastSize([it]));
    FreshBuildEmitFails(conf, env, level);
    var ts := [tg];
    assert FirstBlocked(ts, LastSize([it])) == 0;
    assert ts[..0] == [];
  }

  /** The reference functions of a walk over two accepted items. */
  lemma TwoItems(a: Item, b: Item)
    requires Accepted(a) && Accepted(b)
    ensures Processable([a, b]) && Excludes([a, b]) == ClauseOf(a) + ClauseOf(b) && LastSize([a, b]) == b.block.sizeUnit
    ensures Writes([a, b]) == [(PatternOf(a), LimitsOf(a)), (PatternOf(b), LimitsOf(b))]
  {
    var items := [a, b];
    assert items[1..] == [b];
    OneItem(b);
    AcceptedHead(items);
    assert Processable(items) by {
      forall i | 0 <= i < 2 ensures Complete(items[i]) {
      }
    }
    var wb := Writes(items[1..]);
    assert wb == [(PatternOf(b), LimitsOf(b))];
    var w := Writes(items);
    assert w == [w[0]] + w[1..];
  }

  /** A fresh build whose first recorded pattern has its age lookup succeed and its disk lookup fail. */
  lemma FreshBuildFirstBlocked(conf: Config, env: map<string, string>, level: string)
    requires DefaultIndex(conf, env, level).Ok?
    requires Processable(Items(conf.entries))
    requires var ts := TableTargets(DeleteOp, Recorded(Items(conf.entries)));
      && |ts| > 0 && AgeUnit(ts[0].limits) in ts[0].limits && !Emittable(ts[0], LastSize(Items(conf.entries)))
    ensures var items := Items(conf.entries);
      var ts := TableTargets(DeleteOp, Recorded(items));
      var b := BuildCmd(conf, env, level, InitialSettings, []);
      && b.failed == Some(TargetError(ts[0], LastSize(items)))
      && b.commands == [DefaultIndex(conf, env, level).value + Excludes(items), AgeOf(ts[0], level, ConnectionInfo(env))]
  {
    var items := Items(conf.entries);
    var ts := TableTargets(DeleteOp, Recorded(items));
    FreshBuildEmitFails(conf, env, level);
    assert FirstBlocked(ts, LastSize(items)) == 0;
    assert ts[..0] == [];
  }

  /** The thresholds of an operation counting in days whose size unit is neither months nor sb. */
  lemma DaysLimits(it: Item, sb: string)
    requires Complete(it) && it.block.unit == Some("days")
    requires it.block.sizeUnit.value != "months" && sb != it.block.sizeUnit.value && sb != "days"
    ensures AgeUnit(LimitsOf(it)) == "days" && "days" in LimitsOf(it) && sb !in LimitsOf(it)
  {
  }

  /**
   * Two operations on different patterns, both counting in days, with
   * different size units: the disk-space lookup of the first pattern uses the
   * second one's size unit and raises after the first age command.
   */
  lemma MixedSizeUnits(conf: Config, env: map<string, string>, level: string, a: Item, b: Item)
    requires DefaultIndex(conf, env, level).Ok?
    requires Items(conf.entries) == [a, b] && Accepted(a) && Accepted(b)
    requires PatternOf(a) != PatternOf(b)
    requires a.block.unit == Some("days") && b.block.unit == Some("days")
    requires a.block.sizeUnit.value != "months"
    requires b.block.sizeUnit.value != a.block.sizeUnit.value && b.block.sizeUnit.value != "days"
    ensures var b' := BuildCmd(conf, env, level, InitialSettings, []);
      var first := Target(DeleteOp, PatternOf(a), LimitsOf(a));
      && b'.failed == Some(MissingKey(b.block.sizeUnit.value))
      && b'.commands == [DefaultIndex(conf, env, level).value + ClauseOf(a) + ClauseOf(b), AgeOf(first, level, ConnectionInfo(env))]
  {
    TwoItems(a, b);
    PutAllPair(PatternOf(a), LimitsOf(a), PatternOf(b), LimitsOf(b));
    TargetsOfPair(DeleteOp, PatternOf(a), LimitsOf(a), PatternOf(b), LimitsOf(b));
    DaysLimits(a, b.block.sizeUnit.value);
    var items := [a, b];
    var ts := TableTargets(DeleteOp, Recorded(items));
    var first := Target(DeleteOp, PatternOf(a), LimitsOf(a));
    assert ts[0] == first;
    assert !Emittable(ts[0], LastSize(items));
    assert TargetError(ts[0], LastSize(items)) == MissingKey(b.block.sizeUnit.value);
    FreshBuildFirstBlocked(conf, env, level);
    AppendAssoc(DefaultIndex(conf, env, level).value, ClauseOf(a), ClauseOf(b));
  }

  /** With no project at all, the command list is the default command alone. */
  lemma NoProjects(conf: Config, env: map<string, string>, level: string)
    requires DefaultIndex(conf, env, level).Ok? && Items(conf.entries) == []
    ensures BuildCmd(conf, env, level, InitialSettings, []) ==
      BuildState(InitialSettings, [DefaultIndex(conf, env, level).value], None)
  {
    FreshWalk(DefaultIndex(conf, env, level).value, []);
    assert Recorded([]) == [];
    OneTable([]);
  }

  /** Without a `delete` entry under `.defaults` the first command is the bare run of exclude clauses. */
  lemma BareExcludes(conf: Config, env: map<string, string>, level: string)
    requires DefaultsOf(conf).delete.None?
    requires Processable(Items(conf.entries))
    requires AllEmittable(TableTargets(DeleteOp, Recorded(Items(conf.entries))), LastSize(Items(conf.entries)))
    ensures var c := BuildCmd(conf, env, level, InitialSettings, []).commands;
      |c| > 0 && c[0] == Excludes(Items(conf.entries))
  {
    DefaultIndexEmpty(conf, env, level);
    FreshBuildSucceeds(conf, env, level);
  }

  /**
   * A second `build_cmd` on the same object records the same table again,
   * leaving the settings as they were, and appends the same commands a
   * second time.
   */
  lemma SecondBuild(conf: Config, env: map<string, string>, level: string)
    requires BuildCmd(conf, env, level, InitialSettings, []).failed.None?
    ensures var b := BuildCmd(conf, env, level, InitialSettings, []);
      BuildCmd(conf, env, level, b.settings, b.commands) == BuildState(b.settings, b.commands + b.commands, None)
  {
    var items := Items(conf.entries);
    var d := DefaultIndex(conf, env, level).value;
    if !Processable(items) {
      FreshBuildWalkFails(conf, env, level);
    }
    var t := Recorded(items);
    var ts := TableTargets(DeleteOp, t);
    var size := LastSize(items);
    if !AllEmittable(ts, size) {
      FreshBuildEmitFails(conf, env, level);
    }
    FreshBuildSucceeds(conf, env, level);
    var b := BuildCmd(conf, env, level, InitialSettings, []);
    var s1: Settings := [(DeleteOp, t)];
    assert b.settings == s1;
    var c1 := [d + Excludes(items)] + Pairs(ts, level, ConnectionInfo(env), size);
    assert b.commands == c1;
    assert Get(s1, DeleteOp) == Some(t);
    FoldSucceeds(Acc(d, s1, None, None), items, t);
    var empty: Table := [];
    PutAllTwice(empty, Writes(items));
    assert Put(s1, DeleteOp, PutAll(t, Writes(items))) == s1;
    OneTable(t);
    EmitSucceeds(Emission(c1 + [d + Excludes(items)], None), ts, level, ConnectionInfo(env), size);
    AppendAssoc(c1, [d + Excludes(items)], Pairs(ts, level, ConnectionInfo(env), size));
  }

  /** A fresh build that raises nothing had a default command, complete operations and emittable patterns. */
  lemma FreshBuildOk(conf: Config, env: map<string, string>, level: string)
    requires BuildCmd(conf, env, level, InitialSettings, []).failed.None?
    ensures DefaultIndex(conf, env, level).Ok?
    ensures Processable(Items(conf.entries))
    ensures AllEmittable(TableTargets(DeleteOp, Recorded(Items(conf.entries))), LastSize(Items(conf.entries)))
  {
    if !Processable(Items(conf.entries)) {
      FreshBuildWalkFails(conf, env, level);
    } else if !AllEmittable(TableTargets(DeleteOp, Recorded(Items(conf.entries))), LastSize(Items(conf.entries))) {
      FreshBuildEmitFails(conf, env, level);
    }
  }

  /**
   * One accepted operation replaces its pattern's thresholds by a fresh map
   * holding exactly its unit and size unit, and leaves every other pattern
   * of the table as it was.
   */
  lemma RecordOne(acc: Acc, it: Item, t: Table, q: string)
    requires acc.failed.None? && Get(acc.settings, DeleteOp) == Some(t) && Accepted(it)
    ensures Get(Process(acc, it).settings, DeleteOp).Some?
    ensures var t' := Get(Process(acc, it).settings, DeleteOp).value;
      Get(t', q) == (if q == PatternOf(it) then Some(LimitsOf(it)) else Get(t, q))
    ensures LimitsOf(it).Keys == {it.block.unit.value, it.block.sizeUnit.value}
    ensures LimitsOf(it)[it.block.sizeUnit.value] == it.block.quota.value
    ensures it.block.unit != it.block.sizeUnit ==> LimitsOf(it)[it.block.unit.value] == it.block.count.value
  {
    ProcessAccepted(acc, it, t);
    PutGet(t, PatternOf(it), LimitsOf(it), q);
  }

  /** An operation key that is not an allowed operation (`raw_regex`, or an unknown name) is skipped without raising. */
  lemma {:induction false} SkippedOperations(acc: Acc, items: seq<Item>)
    requires forall i :: 0 <= i < |items| ==> !Allowed(items[i])
    ensures Fold(acc, items) == acc
    decreases |items|
  {
    if items != [] && acc.failed.None? {
      assert Process(acc, items[0]) == acc;
      SkippedOperations(acc, items[1..]);
    }
  }

  // ---------------------------------------------------------------------
  // When `size` is unbound
  // ---------------------------------------------------------------------

  /** The walk only raises KeyErrors. */
  lemma {:induction false} FoldRaisesKeyErrors(acc: Acc, items: seq<Item>)
    requires acc.failed.None? || acc.failed.value.MissingKey?
    ensures var r := Fold(acc, items); r.failed.None? || r.failed.value.MissingKey?
    decreases |items|
  {
    if items != [] && acc.failed.None? {
      FoldRaisesKeyErrors(Process(acc, items[0]), items[1..]);
    }
  }

  /** A walk that leaves `size` unbound recorded nothing: the settings are those it started from. */
  lemma {:induction false} UnboundSizeNoWrites(acc: Acc, items: seq<Item>)
    ensures var r := Fold(acc, items); r.size.None? ==> acc.size.None? && r.settings == acc.settings
    decreases |items|
  {
    if items != [] && acc.failed.None? {
      UnboundSizeNoWrites(Process(acc, items[0]), items[1..]);
    }
  }

  /** With `size` bound, the emission never raises UnboundLocalError. */
  lemma {:induction false} EmitBoundSize(e: Emission, targets: seq<Target>, level: string, conInfo: string, size: Option<string>)
    requires size.Some? && e.failed != Some(UnboundLocal("size"))
    ensures Emit(e, targets, level, conInfo, size).failed != Some(UnboundLocal("size"))
    decreases |targets|
  {
    if targets != [] && e.failed.None? {
      EmitBoundSize(EmitTarget(e, targets[0], level, conInfo, size), targets[1..], level, conInfo, size);
    }
  }

  /**
   * A fresh build never raises UnboundLocalError on `size`: either an
   * operation was recorded, which binds it, or the delete table is still
   * empty and no disk-space command is built.
   */
  lemma FreshBuildSizeBound(conf: Config, env: map<string, string>, level: string)
    ensures BuildCmd(conf, env, level, InitialSettings, []).failed != Some(UnboundLocal("size"))
  {
    if DefaultIndex(conf, env, level).Ok? {
      var d := DefaultIndex(conf, env, level).value;
      var acc0 := Acc(d, InitialSettings, None, None);
      var acc := Fold(acc0, Items(conf.entries));
      FoldRaisesKeyErrors(acc0, Items(conf.entries));
      if acc.failed.None? {
        var e := Emission([] + [acc.cmd], None);
        if acc.size.None? {
          UnboundSizeNoWrites(acc0, Items(conf.entries));
          OneTable([]);
          assert Targets(acc.settings) == [];
        } else {
          EmitBoundSize(e, Targets(acc.settings), level, ConnectionInfo(env), acc.size);
        }
      }
    }
  }

  /**
   * Settings that already hold a pattern this call does not record leave
   * `size` unbound: with no project, the build stops with UnboundLocalError
   * right after that pattern's age command.
   */
  lemma StaleSettingsUnbound(conf: Config, env: map<string, string>, level: string, pattern: string, limits: Limits)
    requires DefaultIndex(conf, env, level).Ok? && Items(conf.entries) == []
    requires AgeUnit(limits) in limits
    ensures var b := BuildCmd(conf, env, level, [(DeleteOp, [(pattern, limits)])], []);
      && b.failed == Some(UnboundLocal("size"))
      && b.commands == [DefaultIndex(conf, env, level).value,
                        AgeCommand(level, ConnectionInfo(env), DeleteOp, pattern, AgeUnit(limits), limits[AgeUnit(limits)])]
  {
    var settings: Settings := [(DeleteOp, [(pattern, limits)])];
    var d := DefaultIndex(conf, env, level).value;
    assert Fold(Acc(d, settings, None, None), Items(conf.entries)) == Acc(d, settings, None, None);
    EmitStale([] + [d], pattern, limits, level, ConnectionInfo(env));
  }

  /** The emission step of `StaleSettingsUnbound`, for any commands and connection flags. */
  lemma EmitStale(cmds: seq<string>, pattern: string, limits: Limits, level: string, conInfo: string)
    requires AgeUnit(limits) in limits
    ensures Emit(Emission(cmds, None), Targets([(DeleteOp, [(pattern, limits)])]), level, conInfo, None)
         == Emission(cmds + [AgeCommand(level, conInfo, DeleteOp, pattern, AgeUnit(limits), limits[AgeUnit(limits)])],
                     Some(UnboundLocal("size")))
  {
    OneTable([(pattern, limits)]);
    TargetsOfOne(DeleteOp, pattern, limits);
    var t := Target(DeleteOp, pattern, limits);
    var ts := [t];
    assert ts[1..] == [];
    var e1 := EmitTarget(Emission(cmds, None), t, level, conInfo, None);
    assert Emit(e1, ts[1..], level, conInfo, None) == e1;
  }
}
