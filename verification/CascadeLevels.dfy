/** What a delete does to the rows at any depth of the tree, and when this is right. */
module CascadeLevels {
  import opened DeleteRow
  import opened CascadeDelete

  lemma {:induction false} ParentTable(info: Info, path: seq<nat>)
    requires DistinctTables(info) && IsPath(info, path) && path != []
    ensures At(info, path).table != ParentAt(info, path).table
    decreases |path|
  {
    var child := info.childs[path[0]];
    if |path| == 1 {
      assert path[1..] == [] && child.table in Tables(child);
    } else {
      ParentTable(child, path[1..]);
    }
  }

  /** From the second level on the rows that are hit are those whose parent row carries the
      id of the root's row in its own reference. */
  lemma LevelRows(db: Database, root: Info, id: int, path: seq<nat>)
    requires DistinctTables(root) && Tables(root) <= db.Keys && Reached(root, path) && |path| > 1
    ensures var g, h := ParentAt(root, path), At(root, path);
            Outcome(Rows(db, h.table), Rows(ExecuteAll(db, Plan(root, id)), h.table),
                    h.setNull, h.field, row => RefersToRemoved(db, g, h, id, row))
  {
    var g, h := ParentAt(root, path), At(root, path);
    var s := Step(path, StatementAt(root, path, id));
    PlanHas(root, path, id);
    StepEffect(db, root, id, s);
    ParentTable(root, path);
    forall row: Row
      ensures Hit(db, ChildCondition(g, h, id), row) <==> RefersToRemoved(db, g, h, id, row)
    {
      SelectHits(db, g, h, id, row);
    }
    assert s.stmt == Issue(h, ChildCondition(g, h, id));
  }

  // ---------- what should happen ----------

  function Up(path: seq<nat>): seq<nat>
    requires path != []
  {
    path[..|path| - 1]
  }

  lemma {:induction false} UpIsPath(info: Info, path: seq<nat>)
    requires IsPath(info, path) && path != []
    ensures IsPath(info, Up(path)) && At(info, Up(path)) == ParentAt(info, path)
    decreases |path|
  {
    if |path| > 1 {
      UpIsPath(info.childs[path[0]], path[1..]);
      assert Up(path)[1..] == Up(path[1..]);
    }
  }

  /** A row that refers to a row which is removed: to the root's, or to one removed with it. */
  ghost predicate RowDoomed(db: Database, root: Info, id: int, path: seq<nat>, row: Row)
    requires IsPath(root, path) && path != []
    decreases |path|, 0
  {
    if |path| == 1 then Refers(row, At(root, path).field, id)
    else
      UpIsPath(root, path);
      exists v :: KeyDoomed(db, root, id, Up(path), v) && Refers(row, At(root, path).field, v)
  }

  /** A row with key `v` is removed from the table of the node. */
  ghost predicate KeyDoomed(db: Database, root: Info, id: int, path: seq<nat>, v: int)
    requires IsPath(root, path) && path != []
    decreases |path|, 1
  {
    var node := At(root, path);
    && !node.setNull
    && exists x :: x in Rows(db, node.table) && Refers(Rows(db, node.table)[x], node.pk, v)
                   && RowDoomed(db, root, id, path, Rows(db, node.table)[x])
  }

  /** Some row of `g` with key `v` carries the root's id in its reference. */
  ghost predicate Marked(db: Database, g: Info, id: int, v: int) {
    exists x :: RefersToRoot(db, g, id, x) && Refers(Rows(db, g.table)[x], g.pk, v)
  }

  lemma OutcomeUnique(before: Table, after: Table, setNull: bool, field: int, hit: Row -> bool, hit': Row -> bool)
    requires Outcome(before, after, setNull, field, hit)
    requires forall r :: r in before && (hit(before[r]) || hit'(before[r])) ==>
               field in before[r] && before[r][field].Val?
    ensures Outcome(before, after, setNull, field, hit') <==>
            forall r :: r in before ==> (hit(before[r]) <==> hit'(before[r]))
  {
    if Outcome(before, after, setNull, field, hit') {
      forall r | r in before
        ensures hit(before[r]) <==> hit'(before[r])
      {
        if r in after {
          assert after[r] == before[r] || after[r][field] == Null;
        }
      }
    }
  }

  /** A level from the second on is right if and only if, for every key that its rows refer
      to, a parent row with this key carries the root's id exactly if one is removed. */
  lemma LevelExact(db: Database, root: Info, id: int, path: seq<nat>)
    requires DistinctTables(root) && Tables(root) <= db.Keys && Reached(root, path) && |path| > 1
    ensures IsPath(root, Up(path))
    ensures var h := At(root, path);
            Outcome(Rows(db, h.table), Rows(ExecuteAll(db, Plan(root, id)), h.table),
                    h.setNull, h.field, row => RowDoomed(db, root, id, path, row))
            <==>
            forall r, v :: r in Rows(db, h.table) && Refers(Rows(db, h.table)[r], h.field, v) ==>
              (Marked(db, ParentAt(root, path), id, v) <==> KeyDoomed(db, root, id, Up(path), v))
  {
    var h := At(root, path);
    UpIsPath(root, path);
    LevelRows(db, root, id, path);
    ExactByKeys(db, root, id, path, Rows(db, h.table), Rows(ExecuteAll(db, Plan(root, id)), h.table));
  }

  lemma ExactByKeys(db: Database, root: Info, id: int, path: seq<nat>, before: Table, after: Table)
    requires IsPath(root, path) && |path| > 1 && IsPath(root, Up(path))
    requires var g, h := ParentAt(root, path), At(root, path);
             Outcome(before, after, h.setNull, h.field, row => RefersToRemoved(db, g, h, id, row))
    ensures var g, h := ParentAt(root, path), At(root, path);
            Outcome(before, after, h.setNull, h.field, row => RowDoomed(db, root, id, path, row)) <==>
            forall r, v :: r in before && Refers(before[r], h.field, v) ==>
              (Marked(db, g, id, v) <==> KeyDoomed(db, root, id, Up(path), v))
  {
    var g, h := ParentAt(root, path), At(root, path);
    OutcomeUnique(before, after, h.setNull, h.field,
                  row => RefersToRemoved(db, g, h, id, row), row => RowDoomed(db, root, id, path, row));
    forall r, v | r in before && Refers(before[r], h.field, v)
      ensures RefersToRemoved(db, g, h, id, before[r]) <==> Marked(db, g, id, v)
      ensures RowDoomed(db, root, id, path, before[r]) <==> KeyDoomed(db, root, id, Up(path), v)
    {
      ByKey(db, root, id, path, before[r], v);
    }
    if forall r, v :: r in before && Refers(before[r], h.field, v) ==>
         (Marked(db, g, id, v) <==> KeyDoomed(db, root, id, Up(path), v)) {
      forall r | r in before
        ensures RefersToRemoved(db, g, h, id, before[r]) <==> RowDoomed(db, root, id, path, before[r])
      {
        if v :| Refers(before[r], h.field, v) {
          ByKey(db, root, id, path, before[r], v);
        }
      }
    }
  }

  lemma ByKey(db: Database, root: Info, id: int, path: seq<nat>, row: Row, v: int)
    requires IsPath(root, path) && |path| > 1 && IsPath(root, Up(path)) && Refers(row, At(root, path).field, v)
    ensures RefersToRemoved(db, ParentAt(root, path), At(root, path), id, row) <==>
            Marked(db, ParentAt(root, path), id, v)
    ensures RowDoomed(db, root, id, path, row) <==> KeyDoomed(db, root, id, Up(path), v)
  {
  }

  /** The second level always is right. */
  lemma SecondLevelRight(db: Database, root: Info, id: int, path: seq<nat>)
    requires DistinctTables(root) && Tables(root) <= db.Keys && Reached(root, path) && |path| == 2
    ensures var h := At(root, path);
            Outcome(Rows(db, h.table), Rows(ExecuteAll(db, Plan(root, id)), h.table),
                    h.setNull, h.field, row => RowDoomed(db, root, id, path, row))
  {
    LevelExact(db, root, id, path);
    UpIsPath(root, path);
    var g, h := ParentAt(root, path), At(root, path);
    assert Up(path)[1..] == [] && g == root.childs[path[0]];
    forall v
      ensures Marked(db, g, id, v) <==> KeyDoomed(db, root, id, Up(path), v)
    {
      if KeyDoomed(db, root, id, Up(path), v) {
        var x :| x in Rows(db, g.table) && Refers(Rows(db, g.table)[x], g.pk, v)
                 && RowDoomed(db, root, id, Up(path), Rows(db, g.table)[x]);
        assert RefersToRoot(db, g, id, x);
      }
    }
  }

  lemma OneChild(info: Info)
    requires |info.childs| == 1
    requires DistinctTables(info.childs[0]) && info.table !in Tables(info.childs[0])
    ensures Tables(info) == {info.table} + Tables(info.childs[0]) && DistinctTables(info)
  {
    assert forall t :: t in Tables(info.childs[0]) ==> t in Tables(info) by {
      forall t | t in Tables(info.childs[0])
        ensures t in Tables(info)
      {
        assert 0 <= 0 < |info.childs| && t in Tables(info.childs[0]);
      }
    }
  }

  function ChainRow(pk: int, ref: int): Table {
    map[0 := map[0 := Val(pk), 1 := Val(ref)]]
  }

  /** A chain of four tables in which each row refers to the row before it: deleting the
      first row deletes the third, but leaves the fourth, which refers to it. */
  lemma ThirdLevelDangles() returns (root: Info, db: Database)
    ensures DistinctTables(root) && Tables(root) <= db.Keys
    ensures var db' := ExecuteAll(db, Plan(root, 1));
            && 0 in Rows(db, 2) && Refers(Rows(db, 2)[0], 0, 20) && 0 !in Rows(db', 2)
            && 0 in Rows(db', 3) && Refers(Rows(db', 3)[0], 1, 20)
  {
    var h := Info(3, 1, 0, false, []);
    var g := Info(2, 1, 0, false, [h]);
    var c := Info(1, 1, 0, false, [g]);
    root := Info(0, 1, 0, false, [c]);
    db := map[0 := ChainRow(1, 0), 1 := ChainRow(10, 1), 2 := ChainRow(20, 10), 3 := ChainRow(30, 20)];
    assert Tables(h) == {3} && DistinctTables(h);
    OneChild(g);
    OneChild(c);
    OneChild(root);
    GrandchildRows(db, root, 1, 0, 0);
    assert RefersToRoot(db, c, 1, 0) && Refers(Rows(db, 1)[0], 0, 10) && Refers(db[2][0], 1, 10);
    assert RefersToRemoved(db, c, g, 1, db[2][0]);
    var path: seq<nat> := [0, 0, 0];
    assert path[1..] == [0, 0] && path[1..][1..] == [0] && path[1..][1..][1..] == [];
    assert Reached(root, path) && At(root, path) == h && ParentAt(root, path) == g;
    LevelRows(db, root, 1, path);
    assert !RefersToRemoved(db, g, h, 1, db[3][0]);
  }
}
