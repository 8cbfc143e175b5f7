/** Deleting a row together with the rows that refer to it.

The tree says which tables refer to which; the helper walks it, issuing one statement
per node, children before parents, and stops at the first statement that fails.
 */
module DeleteRow {

  datatype Cell = Null | Val(v: int)
  type Row = map<int, Cell>
  type Table = map<int, Row>
  type Database = map<int, Table>

  datatype Info = Info(table: int, field: int, pk: int, setNull: bool, childs: seq<Info>)

  datatype Where =
    | Equals(field: int, id: int)
    | InSelect(field: int, pk: int, table: int, parentField: int, id: int)

  datatype Statement =
    | Delete(table: int, cond: Where)
    | SetNull(table: int, field: int, cond: Where)

  /** A statement and the node it is issued for, as the path of child numbers from the root. */
  datatype Step = Step(path: seq<nat>, stmt: Statement)

  // ---------- meaning of statements ----------

  function Rows(db: Database, table: int): Table {
    if table in db then db[table] else map[]
  }

  predicate Refers(row: Row, field: int, v: int) {
    field in row && row[field] == Val(v)
  }

  predicate Hit(db: Database, c: Where, row: Row) {
    match c
    case Equals(field, id) => Refers(row, field, id)
    case InSelect(field, pk, table, parentField, id) =>
      field in row && row[field].Val? &&
      exists r :: r in Rows(db, table) && Refers(Rows(db, table)[r], parentField, id)
                  && Refers(Rows(db, table)[r], pk, row[field].v)
  }

  function Effect(db: Database, s: Statement): Table {
    var t := Rows(db, s.table);
    match s
    case Delete(_, c) => map r | r in t && !Hit(db, c, t[r]) :: t[r]
    case SetNull(_, field, c) => map r | r in t :: if Hit(db, c, t[r]) then t[r][field := Null] else t[r]
  }

  function Execute(db: Database, s: Statement): Database {
    if s.table in db then db[s.table := Effect(db, s)] else db
  }

  function ExecuteAll(db: Database, steps: seq<Step>): Database
    decreases |steps|
  {
    if steps == [] then db else ExecuteAll(Execute(db, steps[0].stmt), steps[1..])
  }

  // ---------- the plan ----------

  function Issue(info: Info, cond: Where): Statement {
    if info.setNull then SetNull(info.table, info.field, cond) else Delete(info.table, cond)
  }

  /** The condition used below the first level. */
  function ChildCondition(parent: Info, child: Info, id: int): Where {
    if child.setNull && child.table == parent.table then Equals(parent.pk, id)
    else InSelect(child.field, parent.pk, parent.table, parent.field, id)
  }

  function Below(parent: Info, path: seq<nat>, k: nat, id: int): seq<Step>
    requires k <= |parent.childs|
    decreases parent, |parent.childs| - k
  {
    if k == |parent.childs| then []
    else
      var child := parent.childs[k];
      Below(child, path + [k], 0, id) +
      [Step(path + [k], Issue(child, ChildCondition(parent, child, id)))] +
      Below(parent, path, k + 1, id)
  }

  function TopSteps(child: Info, k: nat, id: int): seq<Step> {
    (if child.setNull then [] else Below(child, [k], 0, id)) +
    [Step([k], Issue(child, Equals(child.field, id)))]
  }

  function Children(root: Info, k: nat, id: int): seq<Step>
    requires k <= |root.childs|
    decreases |root.childs| - k
  {
    if k == |root.childs| then [] else TopSteps(root.childs[k], k, id) + Children(root, k + 1, id)
  }

  function Plan(root: Info, id: int): seq<Step> {
    Children(root, 0, id) + [Step([], Delete(root.table, Equals(root.pk, id)))]
  }

  // ---------- running the plan ----------

  /** What has happened so far: statements issued, and the database they left. */
  datatype Progress = Progress(ok: bool, issued: seq<Step>, db: Database)

  /** Issues `steps` until one fails; `succeeds(n)` is the outcome of the n-th statement. */
  function RunSteps(p: Progress, steps: seq<Step>, succeeds: nat -> bool): Progress
    decreases |steps|
  {
    if steps == [] || !p.ok then p
    else RunSteps(RunStep(p, steps[0], succeeds), steps[1..], succeeds)
  }

  function RunStep(p: Progress, s: Step, succeeds: nat -> bool): Progress {
    var ok := succeeds(|p.issued|);
    Progress(ok, p.issued + [s], if ok then Execute(p.db, s.stmt) else p.db)
  }

  lemma {:induction false} RunConcat(p: Progress, a: seq<Step>, b: seq<Step>, succeeds: nat -> bool)
    ensures RunSteps(p, a + b, succeeds) == RunSteps(RunSteps(p, a, succeeds), b, succeeds)
    decreases |a|
  {
    if a == [] {
      assert a + b == b;
    } else if p.ok {
      assert (a + b)[1..] == a[1..] + b;
      RunConcat(RunStep(p, a[0], succeeds), a[1..], b, succeeds);
    }
  }

  class Helper {
    const id: int
    const succeeds: nat -> bool
    var execOk: bool
    var issued: seq<Step>
    var db: Database

    function View(): Progress
      reads this
    {
      Progress(execOk, issued, db)
    }

    constructor (id: int, db: Database, succeeds: nat -> bool)
      ensures this.id == id && this.succeeds == succeeds && View() == Progress(true, [], db)
    {
      this.id, this.db, this.succeeds := id, db, succeeds;
      execOk, issued := true, [];
    }

    method Exec(s: Step)
      modifies this
      ensures View() == RunStep(old(View()), s, succeeds)
    {
      execOk := succeeds(|issued|);
      issued := issued + [s];
      if execOk {
        db := Execute(db, s.stmt);
      }
    }

    /** `del_impl`: everything below `parent`; stops when a statement fails. */
    method DelImpl(parent: Info, path: seq<nat>)
      requires execOk
      modifies this
      ensures View() == RunSteps(old(View()), Below(parent, path, 0, id), succeeds)
      decreases parent
    {
      ghost var target := RunSteps(View(), Below(parent, path, 0, id), succeeds);
      var k := 0;
      while k < |parent.childs|
        invariant k <= |parent.childs| && execOk
        invariant target == RunSteps(View(), Below(parent, path, k, id), succeeds)
      {
        var child := parent.childs[k];
        var s := Step(path + [k], Issue(child, ChildCondition(parent, child, id)));
        RunBelow(View(), parent, path, k, id, succeeds);
        DelImpl(child, path + [k]);
        if !execOk {
          return;
        }
        Exec(s);
        if !execOk {
          return;
        }
        k := k + 1;
      }
    }

    /** `del` */
    method Del(root: Info) returns (ok: bool)
      requires execOk
      modifies this
      ensures View() == RunSteps(old(View()), Plan(root, id), succeeds)
      ensures ok == execOk
    {
      ghost var target := RunSteps(View(), Plan(root, id), succeeds);
      var last := Step([], Delete(root.table, Equals(root.pk, id)));
      var k := 0;
      while k < |root.childs|
        invariant k <= |root.childs| && execOk
        invariant target == RunSteps(View(), Children(root, k, id) + [last], succeeds)
      {
        var child := root.childs[k];
        RunTop(View(), root, k, id, last, succeeds);
        if !child.setNull {
          DelImpl(child, [k]);
          if !execOk {
            return false;
          }
        }
        Exec(Step([k], Issue(child, Equals(child.field, id))));
        if !execOk {
          return false;
        }
        k := k + 1;
      }
      assert [] + [last] == [last];
      Exec(last);
      return execOk;
    }
  }

  lemma RunBelow(p: Progress, parent: Info, path: seq<nat>, k: nat, id: int, succeeds: nat -> bool)
    requires k < |parent.childs|
    ensures var child := parent.childs[k];
            var s := Step(path + [k], Issue(child, ChildCondition(parent, child, id)));
            var p1 := RunSteps(p, Below(child, path + [k], 0, id), succeeds);
            RunSteps(p, Below(parent, path, k, id), succeeds) ==
            if !p1.ok then p1 else RunSteps(RunStep(p1, s, succeeds), Below(parent, path, k + 1, id), succeeds)
  {
    var child := parent.childs[k];
    var s := Step(path + [k], Issue(child, ChildCondition(parent, child, id)));
    var a, c := Below(child, path + [k], 0, id), Below(parent, path, k + 1, id);
    RunConcat(p, a + [s], c, succeeds);
    RunConcat(p, a, [s], succeeds);
    RunOne(RunSteps(p, a, succeeds), s, succeeds);
  }

  lemma RunOne(p: Progress, s: Step, succeeds: nat -> bool)
    ensures RunSteps(p, [s], succeeds) == if p.ok then RunStep(p, s, succeeds) else p
  {
    assert [s][1..] == [];
  }

  lemma RunTop(p: Progress, root: Info, k: nat, id: int, last: Step, succeeds: nat -> bool)
    requires k < |root.childs|
    ensures var child := root.childs[k];
            var s := Step([k], Issue(child, Equals(child.field, id)));
            var p1 := if child.setNull then p else RunSteps(p, Below(child, [k], 0, id), succeeds);
            RunSteps(p, Children(root, k, id) + [last], succeeds) ==
            if !p1.ok then p1 else RunSteps(RunStep(p1, s, succeeds), Children(root, k + 1, id) + [last], succeeds)
  {
    var child := root.childs[k];
    var s := Step([k], Issue(child, Equals(child.field, id)));
    var a := if child.setNull then [] else Below(child, [k], 0, id);
    var c := Children(root, k + 1, id) + [last];
    assert Children(root, k, id) + [last] == (a + [s]) + c;
    RunConcat(p, a + [s], c, succeeds);
    RunConcat(p, a, [s], succeeds);
    RunOne(RunSteps(p, a, succeeds), s, succeeds);
  }
}
