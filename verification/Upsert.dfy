/**
 * translateOnConflict (internal/proxy/postgresql/translator.go): ON CONFLICT DO UPDATE becomes
 * ON DUPLICATE KEY UPDATE, ON CONFLICT DO NOTHING becomes INSERT IGNORE, and the conflict target
 * is dropped. Both sides are executed on tables given as sequences of rows.
 */
module Upsert {
  import opened Wrappers

  type Column = string

  /** Made stands for values no constant denotes: what a function yields when nothing is known of it. */
  datatype Value = Null | Val(n: int) | Made(f: string, left: Value, right: Value)

  /** A column that is absent is NULL. */
  type Row = map<Column, Value>

  function Get(r: Row, c: Column): Value
  {
    if c in r then r[c] else Null
  }

  // ---- Statements ----

  datatype Expr = Const(v: Value) | Col(c: Column) | Excluded(c: Column) | App(f: string, left: Expr, right: Expr)

  datatype MyExpr = MyConst(v: Value) | MyCol(c: Column) | Values(c: Column) | MyApp(f: string, left: MyExpr, right: MyExpr)

  datatype Assign<E> = Assign(column: Column, value: E)

  type Key = set<Column>

  /** A conflict target names a unique key; DO NOTHING may leave it out. */
  datatype Statement =
    | DoUpdate(row: Row, target: Key, sets: seq<Assign<Expr>>)
    | DoNothing(row: Row, target_: Option<Key>)

  datatype MyStatement = OnDuplicateKey(row: Row, sets: seq<Assign<MyExpr>>) | InsertIgnore(row: Row)

  /** excluded.c becomes VALUES(c); everything else stays. */
  function RewriteExpr(e: Expr): MyExpr
  {
    match e
    case Const(v) => MyConst(v)
    case Col(c) => MyCol(c)
    case Excluded(c) => Values(c)
    case App(f, left, right) => MyApp(f, RewriteExpr(left), RewriteExpr(right))
  }

  function RewriteSets(sets: seq<Assign<Expr>>): (out: seq<Assign<MyExpr>>)
    ensures |out| == |sets|
    ensures forall i :: 0 <= i < |sets| ==> out[i] == Assign(sets[i].column, RewriteExpr(sets[i].value))
  {
    seq(|sets|, i requires 0 <= i < |sets| => Assign(sets[i].column, RewriteExpr(sets[i].value)))
  }

  function Rewrite(s: Statement): MyStatement
  {
    match s
    case DoUpdate(row, _, sets) => OnDuplicateKey(row, RewriteSets(sets))
    case DoNothing(row, _) => InsertIgnore(row)
  }

  // ---- Expressions ----

  /** The meaning of the functions and operators of SQL, on which both sides agree. */
  type Meaning = (string, Value, Value) -> Value

  function Eval(e: Expr, old_: Row, excluded: Row, m: Meaning): Value
  {
    match e
    case Const(v) => v
    case Col(c) => Get(old_, c)
    case Excluded(c) => Get(excluded, c)
    case App(f, left, right) => m(f, Eval(left, old_, excluded, m), Eval(right, old_, excluded, m))
  }

  function MyEval(e: MyExpr, current: Row, inserted: Row, m: Meaning): Value
  {
    match e
    case MyConst(v) => v
    case MyCol(c) => Get(current, c)
    case Values(c) => Get(inserted, c)
    case MyApp(f, left, right) => m(f, MyEval(left, current, inserted, m), MyEval(right, current, inserted, m))
  }

  /** PostgreSQL assigns simultaneously: every right-hand side sees the old row. */
  function Updated(old_: Row, excluded: Row, sets: seq<Assign<Expr>>, m: Meaning): Row
  {
    if sets == [] then old_
    else
      var last := sets[|sets| - 1];
      Updated(old_, excluded, sets[..|sets| - 1], m)[last.column := Eval(last.value, old_, excluded, m)]
  }

  /** MySQL assigns from left to right: a right-hand side sees the assignments before it. */
  function MyUpdated(old_: Row, inserted: Row, sets: seq<Assign<MyExpr>>, m: Meaning): Row
  {
    if sets == [] then old_
    else
      var last := sets[|sets| - 1];
      var current := MyUpdated(old_, inserted, sets[..|sets| - 1], m);
      current[last.column := MyEval(last.value, current, inserted, m)]
  }

  // ---- Tables ----

  type Table = seq<Row>

  /** Equal and not NULL in every column of the key. */
  predicate Conflicts(a: Row, b: Row, key: Key)
  {
    forall c :: c in key ==> Get(a, c) == Get(b, c) && !Get(a, c).Null?
  }

  /** The first row that conflicts on the key, or -1. */
  function FindConflict(t: Table, r: Row, key: Key): (i: int)
    ensures -1 <= i < |t|
    ensures i >= 0 ==> Conflicts(t[i], r, key) && forall k :: 0 <= k < i ==> !Conflicts(t[k], r, key)
    ensures i < 0 ==> forall k :: 0 <= k < |t| ==> !Conflicts(t[k], r, key)
  {
    if t == [] then -1
    else
      var i := FindConflict(t[..|t| - 1], r, key);
      if i >= 0 then i else if Conflicts(t[|t| - 1], r, key) then |t| - 1 else -1
  }

  /** The row MySQL picks: a conflict on the first of the unique keys that has one. */
  function FindDuplicate(t: Table, r: Row, keys: seq<Key>): (i: int)
    ensures -1 <= i < |t|
    ensures i >= 0 <==> exists k :: 0 <= k < |keys| && FindConflict(t, r, keys[k]) >= 0
  {
    if keys == [] then -1
    else if FindConflict(t, r, keys[0]) >= 0 then
      FindConflict(t, r, keys[0])
    else
      var i := FindDuplicate(t, r, keys[1..]);
      assert i >= 0 ==> exists k :: 0 <= k < |keys| && FindConflict(t, r, keys[k]) >= 0 by {
        if i >= 0 {
          var k :| 0 <= k < |keys[1..]| && FindConflict(t, r, keys[1..][k]) >= 0;
          assert FindConflict(t, r, keys[k + 1]) >= 0;
        }
      }
      assert i < 0 ==> forall k :: 0 < k < |keys| ==> keys[k] == keys[1..][k - 1];
      i
  }

  /** No other row than row i conflicts with r on any key. */
  predicate Free(t: Table, i: int, r: Row, keys: seq<Key>)
  {
    forall k, j :: 0 <= k < |keys| && 0 <= j < |t| && j != i ==> !Conflicts(t[j], r, keys[k])
  }

  datatype Outcome = Outcome(table: Table, failed: bool)

  /** Replaces row i unless the new row violates a unique key. */
  function Replace(t: Table, i: nat, r: Row, keys: seq<Key>): Outcome
    requires i < |t|
  {
    if Free(t, i, r, keys) then Outcome(t[i := r], false) else Outcome(t, true)
  }

  function RunPostgres(t: Table, s: Statement, keys: seq<Key>, m: Meaning): Outcome
  {
    match s
    case DoUpdate(row, target, sets) =>
      var i := FindConflict(t, row, target);
      if i >= 0 then Replace(t, i, Updated(t[i], row, sets, m), keys)
      else if FindDuplicate(t, row, keys) >= 0 then Outcome(t, true)
      else Outcome(t + [row], false)
    case DoNothing(row, target) =>
      if FindDuplicate(t, row, keys) < 0 then Outcome(t + [row], false)
      else Outcome(t, target.Some? && FindConflict(t, row, target.value) < 0)
  }

  function RunMySQL(t: Table, s: MyStatement, keys: seq<Key>, m: Meaning): Outcome
  {
    match s
    case OnDuplicateKey(row, sets) =>
      var i := FindDuplicate(t, row, keys);
      if i >= 0 then Replace(t, i, MyUpdated(t[i], row, sets, m), keys) else Outcome(t + [row], false)
    case InsertIgnore(row) =>
      if FindDuplicate(t, row, keys) >= 0 then Outcome(t, false) else Outcome(t + [row], false)
  }

  /** Statements one after another; a failed one leaves the table as it was. */
  function AllPostgres(t: Table, ss: seq<Statement>, keys: seq<Key>, m: Meaning): (Table, seq<bool>)
  {
    if ss == [] then (t, [])
    else
      var (before, failures) := AllPostgres(t, ss[..|ss| - 1], keys, m);
      var o := RunPostgres(before, ss[|ss| - 1], keys, m);
      (o.table, failures + [o.failed])
  }

  function AllMySQL(t: Table, ss: seq<Statement>, keys: seq<Key>, m: Meaning): (Table, seq<bool>)
  {
    if ss == [] then (t, [])
    else
      var (before, failures) := AllMySQL(t, ss[..|ss| - 1], keys, m);
      var o := RunMySQL(before, Rewrite(ss[|ss| - 1]), keys, m);
      (o.table, failures + [o.failed])
  }

  // ---- Assignments ----

  predicate Reads(e: Expr, c: Column)
  {
    match e
    case Const(_) => false
    case Col(d) => d == c
    case Excluded(_) => false
    case App(_, left, right) => Reads(left, c) || Reads(right, c)
  }

  /** A right-hand side reads a column assigned before it only where that assignment is c := c. */
  predicate Harmless(sets: seq<Assign<Expr>>)
  {
    forall i, j :: 0 <= i < j < |sets| && Reads(sets[j].value, sets[i].column) ==> sets[i].value == Col(sets[i].column)
  }

  /** PostgreSQL refuses a list that assigns a column twice. */
  predicate EachOnce(sets: seq<Assign<Expr>>)
  {
    forall i, j :: 0 <= i < j < |sets| ==> sets[i].column != sets[j].column
  }

  /** Two rows that agree on the columns an expression reads give it the same value on both sides. */
  lemma {:induction false} SameValue(e: Expr, old_: Row, current: Row, r: Row, m: Meaning)
    requires forall c :: Reads(e, c) ==> Get(current, c) == Get(old_, c)
    ensures MyEval(RewriteExpr(e), current, r, m) == Eval(e, old_, r, m)
    decreases e
  {
    match e
    case App(f, left, right) =>
      assert forall c :: Reads(left, c) || Reads(right, c) ==> Reads(e, c);
      SameValue(left, old_, current, r, m);
      SameValue(right, old_, current, r, m);
    case Col(c) =>
      assert Reads(e, c);
    case _ =>
  }

  lemma UpdatedStep(old_: Row, r: Row, sets: seq<Assign<Expr>>, m: Meaning)
    requires sets != []
    ensures var n := |sets| - 1;
      Updated(old_, r, sets, m) == Updated(old_, r, sets[..n], m)[sets[n].column := Eval(sets[n].value, old_, r, m)]
  {
  }

  lemma MyUpdatedStep(old_: Row, r: Row, sets: seq<Assign<Expr>>, m: Meaning)
    requires sets != []
    ensures var n := |sets| - 1; var before := MyUpdated(old_, r, RewriteSets(sets[..n]), m);
      MyUpdated(old_, r, RewriteSets(sets), m)
        == before[sets[n].column := MyEval(RewriteExpr(sets[n].value), before, r, m)]
  {
    assert RewriteSets(sets)[..|sets| - 1] == RewriteSets(sets[..|sets| - 1]);
  }

  /** A column whose assignments are all c := c keeps its value. */
  lemma {:induction false} OnlyAssigned(old_: Row, r: Row, sets: seq<Assign<Expr>>, m: Meaning, c: Column)
    requires forall i :: 0 <= i < |sets| && sets[i].column == c ==> sets[i].value == Col(c)
    ensures Get(Updated(old_, r, sets, m), c) == Get(old_, c)
  {
    if sets != [] {
      OnlyAssigned(old_, r, sets[..|sets| - 1], m, c);
    }
  }

  /** Left-to-right assignment is simultaneous assignment when what is read later was not changed. */
  lemma {:induction false} SequentialIsSimultaneous(old_: Row, r: Row, sets: seq<Assign<Expr>>, m: Meaning)
    requires Harmless(sets)
    ensures MyUpdated(old_, r, RewriteSets(sets), m) == Updated(old_, r, sets, m)
  {
    hide MyUpdated, MyEval, Eval;
    if sets != [] {
      var n := |sets| - 1;
      var before := sets[..n];
      SequentialIsSimultaneous(old_, r, before, m);
      MyUpdatedStep(old_, r, sets, m);
      var current := Updated(old_, r, before, m);
      forall c | Reads(sets[n].value, c)
        ensures Get(current, c) == Get(old_, c)
      {
        OnlyAssigned(old_, r, before, m, c);
      }
      SameValue(sets[n].value, old_, current, r, m);
    } else {
      NothingAssigned(old_, r, m);
    }
  }

  lemma NothingAssigned(old_: Row, r: Row, m: Meaning)
    ensures MyUpdated(old_, r, RewriteSets([]), m) == old_ == Updated(old_, r, [], m)
  {
  }

  // ---- Which lists of assignments agree ----

  /** The meaning that keeps everything apart: equal results come from equal arguments. */
  function Symbolic(f: string, left: Value, right: Value): Value
  {
    Made(f, left, right)
  }

  /** Under the free meaning a column read with another value shows in the result. */
  lemma {:induction false} OtherValue(e: Expr, old_: Row, current: Row, r: Row, c: Column)
    requires Reads(e, c) && Get(current, c) != Get(old_, c)
    ensures MyEval(RewriteExpr(e), current, r, Symbolic) != Eval(e, old_, r, Symbolic)
    decreases e
  {
    match e
    case App(f, left, right) =>
      if Reads(left, c) {
        OtherValue(left, old_, current, r, c);
      } else {
        OtherValue(right, old_, current, r, c);
      }
    case _ =>
  }

  /** A row whose column c is changed by any assignment but c := c. */
  lemma ChangedBy(e: Expr, c: Column) returns (old_: Row)
    requires e != Col(c)
    ensures Eval(e, old_, map[], Symbolic) != Get(old_, c)
  {
    old_ := map[c := if e == Const(Val(0)) then Val(1) else Val(0)];
  }

  lemma {:induction false} LastOfColumn(old_: Row, r: Row, sets: seq<Assign<Expr>>, m: Meaning, i: nat)
    requires EachOnce(sets) && i < |sets|
    ensures Get(Updated(old_, r, sets, m), sets[i].column) == Eval(sets[i].value, old_, r, m)
  {
    hide Eval;
    var n := |sets| - 1;
    UpdatedStep(old_, r, sets, m);
    if i < n {
      LastOfColumn(old_, r, sets[..n], m, i);
    }
  }

  /** A harmful list has a row on which the two sides differ, in a column it assigns. */
  lemma {:induction false} HarmShows(sets: seq<Assign<Expr>>) returns (old_: Row, c: Column)
    requires EachOnce(sets) && !Harmless(sets)
    ensures exists i :: 0 <= i < |sets| && sets[i].column == c
    ensures Get(MyUpdated(old_, map[], RewriteSets(sets), Symbolic), c) != Get(Updated(old_, map[], sets, Symbolic), c)
  {
    hide MyUpdated, Updated, MyEval, Eval;
    var n := |sets| - 1;
    var before := sets[..n];
    if Harmless(before) {
      var i :| 0 <= i < n && Reads(sets[n].value, sets[i].column) && sets[i].value != Col(sets[i].column);
      old_ := ChangedBy(sets[i].value, sets[i].column);
      c := sets[n].column;
      SequentialIsSimultaneous(old_, map[], before, Symbolic);
      LastOfColumn(old_, map[], before, Symbolic, i);
      OtherValue(sets[n].value, old_, Updated(old_, map[], before, Symbolic), map[], sets[i].column);
    } else {
      old_, c := HarmShows(before);
      var i :| 0 <= i < n && before[i].column == c;
      assert sets[i].column == c;
    }
    UpdatedStep(old_, map[], sets, Symbolic);
    MyUpdatedStep(old_, map[], sets, Symbolic);
  }

  /**
   * A list that assigns no column twice gives the same row on both sides, for all rows and all
   * meanings of the SQL functions, exactly when it is harmless.
   */
  lemma AssignmentsAgreeExactly(sets: seq<Assign<Expr>>)
    requires EachOnce(sets)
    ensures (forall old_: Row, r: Row, m: Meaning :: MyUpdated(old_, r, RewriteSets(sets), m) == Updated(old_, r, sets, m))
       <==> Harmless(sets)
  {
    hide MyUpdated, Updated, Harmless, RewriteSets;
    if Harmless(sets) {
      forall old_: Row, r: Row, m: Meaning
        ensures MyUpdated(old_, r, RewriteSets(sets), m) == Updated(old_, r, sets, m)
      {
        SequentialIsSimultaneous(old_, r, sets, m);
      }
    } else {
      var old_, c := HarmShows(sets);
    }
  }

  // ---- The rewrite on tables ----

  /** The row collides with the same row of the table, or with none, on the target and on all keys together. */
  predicate SameTarget(t: Table, row: Row, target: Key, keys: seq<Key>)
  {
    FindDuplicate(t, row, keys) == FindConflict(t, row, target)
  }

  /** What a statement needs of the table it meets. */
  predicate Rewritable(t: Table, s: Statement, keys: seq<Key>)
  {
    match s
    case DoUpdate(row, target, sets) => SameTarget(t, row, target, keys) && Harmless(sets)
    case DoNothing(row, target) =>
      target.Some? && FindConflict(t, row, target.value) < 0 ==> FindDuplicate(t, row, keys) < 0
  }

  lemma OnlyKey(t: Table, r: Row, key: Key)
    ensures FindDuplicate(t, r, [key]) == FindConflict(t, r, key)
  {
    assert [key][1..] == [];
    assert FindDuplicate(t, r, []) == -1;
  }

  lemma SameOutcome(t: Table, s: Statement, keys: seq<Key>, m: Meaning)
    requires Rewritable(t, s, keys)
    ensures RunMySQL(t, Rewrite(s), keys, m) == RunPostgres(t, s, keys, m)
  {
    hide FindDuplicate, MyUpdated, Updated, Harmless;
    match s
    case DoUpdate(row, target, sets) =>
      var i := FindConflict(t, row, target);
      if i >= 0 {
        SequentialIsSimultaneous(t[i], row, sets, m);
      }
    case DoNothing(row, _) =>
  }

  /**
   * Over any table with any unique keys, a list of upserts reaches the same table on both sides
   * and fails at the same statements when each of them is rewritable on the table it meets,
   * whatever the SQL functions mean and even when an assignment changes a key.
   */
  lemma {:induction false} RewriteRefines(t: Table, ss: seq<Statement>, keys: seq<Key>, m: Meaning)
    requires forall i :: 0 <= i < |ss| ==> Rewritable(AllPostgres(t, ss[..i], keys, m).0, ss[i], keys)
    ensures AllMySQL(t, ss, keys, m) == AllPostgres(t, ss, keys, m)
  {
    hide RunMySQL, RunPostgres, Rewritable, Rewrite;
    if ss != [] {
      var n := |ss| - 1;
      forall i | 0 <= i < n
        ensures Rewritable(AllPostgres(t, ss[..n][..i], keys, m).0, ss[..n][i], keys)
      {
        assert ss[..n][..i] == ss[..i];
      }
      RewriteRefines(t, ss[..n], keys, m);
      SameOutcome(AllPostgres(t, ss[..n], keys, m).0, ss[n], keys, m);
    }
  }

  predicate Targets(s: Statement, key: Key)
  {
    match s
    case DoUpdate(_, target, sets) => target == key && Harmless(sets)
    case DoNothing(_, target) => target.None? || target.value == key
  }

  /** When the target is the only unique key every table will do. */
  lemma OneKeyRefines(t: Table, ss: seq<Statement>, key: Key, m: Meaning)
    requires forall i :: 0 <= i < |ss| ==> Targets(ss[i], key)
    ensures AllMySQL(t, ss, [key], m) == AllPostgres(t, ss, [key], m)
  {
    hide AllMySQL, AllPostgres, FindDuplicate, FindConflict, Harmless;
    forall i | 0 <= i < |ss|
      ensures Rewritable(AllPostgres(t, ss[..i], [key], m).0, ss[i], [key])
    {
      assert Targets(ss[i], key);
      OnlyKey(AllPostgres(t, ss[..i], [key], m).0, ss[i].row, key);
    }
    RewriteRefines(t, ss, [key], m);
  }

  predicate Unique(t: Table, keys: seq<Key>)
  {
    forall k, i, j :: 0 <= k < |keys| && 0 <= i < j < |t| ==> !Conflicts(t[i], t[j], keys[k])
  }

  lemma ConflictsSymmetric(a: Row, b: Row, key: Key)
    ensures Conflicts(a, b, key) <==> Conflicts(b, a, key)
  {
  }

  /** The rewritten statements keep every unique key of the table. */
  lemma MySQLKeepsUnique(t: Table, s: MyStatement, keys: seq<Key>, m: Meaning)
    requires Unique(t, keys)
    ensures Unique(RunMySQL(t, s, keys, m).table, keys)
  {
    hide Conflicts, MyUpdated;
    var out := RunMySQL(t, s, keys, m).table;
    forall k, i, j | 0 <= k < |keys| && 0 <= i < j < |out|
      ensures !Conflicts(out[i], out[j], keys[k])
    {
      ConflictsSymmetric(out[i], out[j], keys[k]);
      if |out| > |t| && j == |t| {
        assert FindConflict(t, s.row, keys[k]) < 0;
      }
    }
  }

  // ---- Where the rewrite does not agree ----

  /**
   * DO NOTHING and INSERT IGNORE always leave the same table; they report alike exactly unless
   * the row collides on a key other than the target and not on the target.
   */
  lemma DoNothingExactly(t: Table, row: Row, target: Option<Key>, keys: seq<Key>, m: Meaning)
    ensures var s := DoNothing(row, target);
      && RunMySQL(t, Rewrite(s), keys, m).table == RunPostgres(t, s, keys, m).table
      && (RunMySQL(t, Rewrite(s), keys, m) == RunPostgres(t, s, keys, m)
          <==> !(target.Some? && FindConflict(t, row, target.value) < 0
                 && exists k :: 0 <= k < |keys| && FindConflict(t, row, keys[k]) >= 0))
  {
  }

  /** Assigning a column outside every key conflicts with nothing new. */
  lemma OutsideKeys(t: Table, i: nat, c: Column, v: Value, keys: seq<Key>)
    requires Unique(t, keys) && i < |t| && forall k :: 0 <= k < |keys| ==> c !in keys[k]
    ensures Replace(t, i, t[i][c := v], keys) == Outcome(t[i := t[i][c := v]], false)
    ensures Replace(t, i, t[i], keys) == Outcome(t, false)
  {
    hide Conflicts;
    forall k, j | 0 <= k < |keys| && 0 <= j < |t| && j != i
      ensures !Conflicts(t[j], t[i], keys[k]) && !Conflicts(t[j], t[i][c := v], keys[k])
    {
      ConflictsSymmetric(t[j], t[i], keys[k]);
      KeyUntouched(t[j], t[i], c, v, keys[k]);
    }
    assert t[i := t[i]] == t;
  }

  lemma KeyUntouched(a: Row, b: Row, c: Column, v: Value, key: Key)
    requires c !in key
    ensures Conflicts(a, b[c := v], key) <==> Conflicts(a, b, key)
  {
    forall d | d in key
      ensures Get(b[c := v], d) == Get(b, d)
    {
    }
  }

  ghost predicate UpdatesAgree(t: Table, row: Row, target: Key, keys: seq<Key>, m: Meaning)
  {
    forall sets: seq<Assign<Expr>> :: Harmless(sets) ==>
      RunMySQL(t, Rewrite(DoUpdate(row, target, sets)), keys, m) == RunPostgres(t, DoUpdate(row, target, sets), keys, m)
  }

  /** A row that collides on another key: without assignments PostgreSQL refuses it and MySQL does not. */
  lemma RefusedOnlyHere(t: Table, row: Row, target: Key, keys: seq<Key>, c: Column, m: Meaning)
    requires Unique(t, keys) && forall k :: 0 <= k < |keys| ==> c !in keys[k]
    requires FindConflict(t, row, target) < 0 <= FindDuplicate(t, row, keys)
    ensures RunMySQL(t, Rewrite(DoUpdate(row, target, [])), keys, m) != RunPostgres(t, DoUpdate(row, target, []), keys, m)
  {
    hide FindConflict, FindDuplicate, MyUpdated, Replace;
    var d := FindDuplicate(t, row, keys);
    NothingAssigned(t[d], row, m);
    OutsideKeys(t, d, c, Null, keys);
  }

  /** A row that collides with two rows: an assignment lands on one or on the other. */
  lemma LandsElsewhere(t: Table, row: Row, target: Key, keys: seq<Key>, c: Column, m: Meaning) returns (sets: seq<Assign<Expr>>)
    requires Unique(t, keys) && forall k :: 0 <= k < |keys| ==> c !in keys[k]
    requires FindConflict(t, row, target) >= 0 && FindDuplicate(t, row, keys) >= 0
    requires FindConflict(t, row, target) != FindDuplicate(t, row, keys)
    ensures Harmless(sets)
    ensures RunMySQL(t, Rewrite(DoUpdate(row, target, sets)), keys, m) != RunPostgres(t, DoUpdate(row, target, sets), keys, m)
  {
    hide FindConflict, FindDuplicate, Updated, MyUpdated, Replace;
    var f, d := FindConflict(t, row, target), FindDuplicate(t, row, keys);
    var v := if Get(t[f], c) == Val(0) then Val(1) else Val(0);
    sets := [Assign(c, Const(v))];
    OneConstant(t[f], row, c, v, m);
    OneConstant(t[d], row, c, v, m);
    OutsideKeys(t, f, c, v, keys);
    OutsideKeys(t, d, c, v, keys);
    assert Get(t[f][c := v], c) != Get(t[f], c);
    assert t[d := t[d][c := v]][f] == t[f];
    assert t[f := t[f][c := v]][f] == t[f][c := v];
  }

  lemma OneConstant(old_: Row, r: Row, c: Column, v: Value, m: Meaning)
    ensures var sets := [Assign(c, Const(v))];
      MyUpdated(old_, r, RewriteSets(sets), m) == old_[c := v] == Updated(old_, r, sets, m)
  {
    var sets := [Assign(c, Const(v))];
    assert sets[..0] == [];
    UpdatedStep(old_, r, sets, m);
    MyUpdatedStep(old_, r, sets, m);
    NothingAssigned(old_, r, m);
  }

  /**
   * Over a table that obeys its unique keys and has a column outside them, the rewritten DO
   * UPDATE agrees for every harmless list of assignments exactly when the row collides with the
   * same row, or with none, on the target and on all keys together.
   */
  lemma DoUpdateExactly(t: Table, row: Row, target: Key, keys: seq<Key>, c: Column, m: Meaning)
    requires Unique(t, keys) && target in keys && forall k :: 0 <= k < |keys| ==> c !in keys[k]
    ensures UpdatesAgree(t, row, target, keys, m) <==> SameTarget(t, row, target, keys)
  {
    hide FindConflict, RunMySQL, RunPostgres, Harmless, Unique, Rewrite;
    var f, d := FindConflict(t, row, target), FindDuplicate(t, row, keys);
    if d == f {
      forall sets: seq<Assign<Expr>> | Harmless(sets)
        ensures RunMySQL(t, Rewrite(DoUpdate(row, target, sets)), keys, m) == RunPostgres(t, DoUpdate(row, target, sets), keys, m)
      {
        SameOutcome(t, DoUpdate(row, target, sets), keys, m);
      }
    } else if f < 0 {
      RefusedOnlyHere(t, row, target, keys, c, m);
      NothingIsHarmless();
    } else {
      var k :| 0 <= k < |keys| && keys[k] == target;
      assert FindConflict(t, row, keys[k]) >= 0;
      var sets := LandsElsewhere(t, row, target, keys, c, m);
    }
  }

  lemma NothingIsHarmless()
    ensures Harmless([])
  {
  }

  /** A second unique key: PostgreSQL refuses the row, MySQL updates the row it collides with. */
  lemma SecondKeyDiffers(m: Meaning)
    ensures var t := [map["id" := Val(1), "name" := Val(7)]];
      var s := DoUpdate(map["id" := Val(2), "name" := Val(7)], {"id"}, [Assign("n", Const(Val(5)))]);
      var keys := [{"id"}, {"name"}];
      && RunPostgres(t, s, keys, m) == Outcome(t, true)
      && RunMySQL(t, Rewrite(s), keys, m) == Outcome([t[0]["n" := Val(5)]], false)
  {
    var old_: Row := map["id" := Val(1), "name" := Val(7)];
    var row: Row := map["id" := Val(2), "name" := Val(7)];
    var t := [old_];
    var sets := [Assign("n", Const(Val(5)))];
    var keys: seq<Key> := [{"id"}, {"name"}];
    assert !Conflicts(old_, row, {"id"}) by { assert "id" in {"id"} && Get(old_, "id") != Get(row, "id"); }
    assert Conflicts(old_, row, {"name"});
    assert t[..0] == [];
    assert FindConflict(t, row, {"id"}) == -1 && FindConflict(t, row, {"name"}) == 0;
    assert keys[1..] == [{"name"}];
    OnlyKey(t, row, {"name"});
    assert FindDuplicate(t, row, keys) == 0;
    assert sets[..0] == [] && RewriteSets(sets)[..0] == [];
    assert MyUpdated(old_, row, RewriteSets(sets), m) == old_["n" := Val(5)];
    assert t[0 := old_["n" := Val(5)]] == [old_["n" := Val(5)]];
  }

  /** Reading a column assigned earlier: PostgreSQL reads the old value, MySQL the new one. */
  lemma EarlierAssignmentDiffers(m: Meaning)
    ensures var sets := [Assign("a", Excluded("a")), Assign("b", Col("a"))];
      var old_: Row := map["a" := Val(1)];
      var r: Row := map["a" := Val(2)];
      && Get(Updated(old_, r, sets, m), "b") == Val(1)
      && Get(MyUpdated(old_, r, RewriteSets(sets), m), "b") == Val(2)
  {
    var sets := [Assign("a", Excluded("a")), Assign("b", Col("a"))];
    var old_: Row := map["a" := Val(1)];
    var r: Row := map["a" := Val(2)];
    var my := RewriteSets(sets);
    assert my[..1] == [my[0]] && [my[0]][..0] == [];
    assert MyUpdated(old_, r, [my[0]], m) == old_["a" := Val(2)];
  }
}
