/** What deleting a row with its referring rows does: the order of the statements, and
the rows that are gone or nullified afterwards. */
module CascadeDelete {
  import opened DeleteRow

  // ---------- order ----------

  /** What was issued is a prefix of the plan that ends with the first failure; only the
      statements before a failure took effect; success means the whole plan ran. */
  lemma {:induction false} PrefixOfPlan(p: Progress, steps: seq<Step>, succeeds: nat -> bool) returns (k: nat)
    requires p.ok
    ensures var r := RunSteps(p, steps, succeeds);
            && k <= |steps| && r.issued == p.issued + steps[..k]
            && (r.ok <==> forall n: nat :: |p.issued| <= n < |p.issued| + |steps| ==> succeeds(n))
            && (r.ok ==> k == |steps| && r.db == ExecuteAll(p.db, steps))
            && (!r.ok ==> k > 0 && !succeeds(|p.issued| + k - 1) && r.db == ExecuteAll(p.db, steps[..k - 1]))
    decreases |steps|
  {
    if steps == [] {
      k := 0;
    } else {
      var p' := RunStep(p, steps[0], succeeds);
      var tail := steps[1..];
      if p'.ok {
        k := PrefixOfPlan(p', tail, succeeds);
        assert steps[..k + 1] == [steps[0]] + tail[..k];
        assert k > 0 ==> steps[..k] == [steps[0]] + tail[..k - 1];
        k := k + 1;
      } else {
        k := 1;
        assert succeeds(|p.issued|) == p'.ok;
        assert RunSteps(p', tail, succeeds) == p';
      }
    }
  }

  /** `a` is an ancestor of `b` in the tree. */
  predicate Ancestor(a: seq<nat>, b: seq<nat>) {
    |a| < |b| && a == b[..|a|]
  }

  /** No statement comes after one of an ancestor, and no node has two. */
  ghost predicate PostOrder(steps: seq<Step>) {
    forall i, j :: 0 <= i < j < |steps| ==>
      steps[i].path != steps[j].path && !Ancestor(steps[i].path, steps[j].path)
  }

  /** All steps belong to nodes below `path`, under its children from number `k` on. */
  ghost predicate Under(steps: seq<Step>, path: seq<nat>, k: nat) {
    forall i :: 0 <= i < |steps| ==>
      Ancestor(path, steps[i].path) && steps[i].path[|path|] >= k
  }

  lemma PostOrderConcat(a: seq<Step>, s: Step, c: seq<Step>, path: seq<nat>, k: nat)
    requires PostOrder(a) && PostOrder(c)
    requires Under(a, path + [k], 0) && s.path == path + [k] && Under(c, path, k + 1)
    ensures PostOrder(a + [s] + c) && Under(a + [s] + c, path, k)
  {
    var all := a + [s] + c;
    forall i | 0 <= i < |all|
      ensures Ancestor(path, all[i].path) && all[i].path[|path|] >= k
      ensures i <= |a| ==> all[i].path[|path|] == k
      ensures i > |a| ==> all[i].path[|path|] > k
    {
      if i < |a| {
        assert all[i] == a[i];
        assert all[i].path[..|path|] == all[i].path[..|path| + 1][..|path|];
        assert all[i].path[|path|] == all[i].path[..|path| + 1][|path|];
      } else if i == |a| {
        assert all[i].path[..|path|] == path;
      } else {
        assert all[i] == c[i - |a| - 1];
      }
    }
    forall i, j | 0 <= i < j < |all|
      ensures all[i].path != all[j].path && !Ancestor(all[i].path, all[j].path)
    {
      if j < |a| {
        assert all[i] == a[i] && all[j] == a[j];
      } else if i > |a| {
        assert all[i] == c[i - |a| - 1] && all[j] == c[j - |a| - 1];
      } else if j > |a| {
        assert all[i].path[|path|] != all[j].path[|path|];
      } else {
        assert all[i] == a[i];
      }
    }
  }

  lemma {:induction false} BelowPostOrder(parent: Info, path: seq<nat>, k: nat, id: int)
    requires k <= |parent.childs|
    ensures PostOrder(Below(parent, path, k, id)) && Under(Below(parent, path, k, id), path, k)
    decreases parent, |parent.childs| - k
  {
    if k < |parent.childs| {
      var child := parent.childs[k];
      BelowPostOrder(child, path + [k], 0, id);
      BelowPostOrder(parent, path, k + 1, id);
      PostOrderConcat(Below(child, path + [k], 0, id),
                      Step(path + [k], Issue(child, ChildCondition(parent, child, id))),
                      Below(parent, path, k + 1, id), path, k);
    }
  }

  lemma {:induction false} ChildrenPostOrder(root: Info, k: nat, id: int)
    requires k <= |root.childs|
    ensures PostOrder(Children(root, k, id)) && Under(Children(root, k, id), [], k)
    decreases |root.childs| - k
  {
    if k < |root.childs| {
      var child := root.childs[k];
      var s := Step([k], Issue(child, Equals(child.field, id)));
      var a := if child.setNull then [] else Below(child, [k], 0, id);
      BelowPostOrder(child, [k], 0, id);
      ChildrenPostOrder(root, k + 1, id);
      assert [] + [k] == [k];
      PostOrderConcat(a, s, Children(root, k + 1, id), [], k);
      assert Children(root, k, id) == a + [s] + Children(root, k + 1, id);
    }
  }

  // ---------- nodes by their paths ----------

  predicate IsPath(info: Info, path: seq<nat>)
    decreases |path|
  {
    path == [] || (path[0] < |info.childs| && IsPath(info.childs[path[0]], path[1..]))
  }

  function At(info: Info, path: seq<nat>): Info
    requires IsPath(info, path)
    decreases |path|
  {
    if path == [] then info else At(info.childs[path[0]], path[1..])
  }

  function ParentAt(info: Info, path: seq<nat>): Info
    requires IsPath(info, path) && path != []
    decreases |path|
  {
    if |path| == 1 then info else ParentAt(info.childs[path[0]], path[1..])
  }

  /** A node that is not below a first-level node set to null. */
  predicate Reached(root: Info, path: seq<nat>) {
    IsPath(root, path) && (|path| > 1 ==> !root.childs[path[0]].setNull)
  }

  /** The statement for a node below the first level. */
  function BelowStatement(top: Info, path: seq<nat>, id: int): Statement
    requires IsPath(top, path) && path != []
  {
    Issue(At(top, path), ChildCondition(ParentAt(top, path), At(top, path), id))
  }

  function StatementAt(root: Info, path: seq<nat>, id: int): Statement
    requires IsPath(root, path)
  {
    if path == [] then Delete(root.table, Equals(root.pk, id))
    else if |path| == 1 then Issue(root.childs[path[0]], Equals(root.childs[path[0]].field, id))
    else BelowStatement(root.childs[path[0]], path[1..], id)
  }

  lemma {:induction false} BelowHasDeep(parent: Info, path: seq<nat>, k: nat, j: nat, id: int, s: Step)
    requires k <= j < |parent.childs| && s in Below(parent.childs[j], path + [j], 0, id)
    ensures s in Below(parent, path, k, id)
    decreases j - k
  {
    if k < j {
      BelowHasDeep(parent, path, k + 1, j, id, s);
    }
  }

  lemma PathOfOne(parent: Info, k: nat)
    requires k < |parent.childs|
    ensures IsPath(parent, [k]) && At(parent, [k]) == parent.childs[k] && ParentAt(parent, [k]) == parent
  {
    assert [k][1..] == [];
    assert At(parent.childs[k], []) == parent.childs[k];
  }

  /** Every node below `parent` has its statement. */
  lemma {:induction false} BelowHasPath(parent: Info, path: seq<nat>, q: seq<nat>, id: int)
    requires IsPath(parent, q) && q != []
    ensures Step(path + q, BelowStatement(parent, q, id)) in Below(parent, path, 0, id)
    decreases |q|
  {
    var j, tail := q[0], q[1..];
    if |q| == 1 {
      assert q == [j];
      PathOfOne(parent, j);
      BelowHas(parent, path, 0, j, id);
    } else {
      BelowHasPath(parent.childs[j], path + [j], tail, id);
      assert path + [j] + tail == path + q;
      BelowHasDeep(parent, path, 0, j, id, Step(path + q, BelowStatement(parent, q, id)));
    }
  }

  /** `s` is the statement of the node that its path leads to. */
  ghost predicate Belongs(parent: Info, path: seq<nat>, id: int, s: Step) {
    exists q: seq<nat> :: q != [] && IsPath(parent, q) && s == Step(path + q, BelowStatement(parent, q, id))
  }

  lemma BelongsDeeper(parent: Info, path: seq<nat>, k: nat, id: int, s: Step)
    requires k < |parent.childs| && Belongs(parent.childs[k], path + [k], id, s)
    ensures Belongs(parent, path, id, s)
  {
    var q: seq<nat> :| q != [] && IsPath(parent.childs[k], q)
                       && s == Step(path + [k] + q, BelowStatement(parent.childs[k], q, id));
    var q' := [k] + q;
    assert q'[1..] == q && path + [k] + q == path + q';
    assert IsPath(parent, q') && BelowStatement(parent, q', id) == BelowStatement(parent.childs[k], q, id);
  }

  /** Nothing else is issued below `parent`. */
  lemma {:induction false} BelowOnly(parent: Info, path: seq<nat>, k: nat, id: int, s: Step)
    requires k <= |parent.childs| && s in Below(parent, path, k, id)
    ensures Belongs(parent, path, id, s)
    decreases parent, |parent.childs| - k
  {
    var child := parent.childs[k];
    if s in Below(child, path + [k], 0, id) {
      BelowOnly(child, path + [k], 0, id, s);
      BelongsDeeper(parent, path, k, id, s);
    } else if s in Below(parent, path, k + 1, id) {
      BelowOnly(parent, path, k + 1, id, s);
    } else {
      var q: seq<nat> := [k];
      PathOfOne(parent, k);
      assert s == Step(path + q, BelowStatement(parent, q, id));
    }
  }

  /** Every node that is reached has its statement in the plan. */
  lemma PlanHas(root: Info, path: seq<nat>, id: int)
    requires Reached(root, path)
    ensures Step(path, StatementAt(root, path, id)) in Plan(root, id)
  {
    var s := Step(path, StatementAt(root, path, id));
    if |path| == 1 {
      assert path == [path[0]];
      ChildrenHave(root, 0, path[0], id, s);
    } else if |path| > 1 {
      BelowHasPath(root.childs[path[0]], [path[0]], path[1..], id);
      assert [path[0]] + path[1..] == path;
      ChildrenHave(root, 0, path[0], id, s);
    }
  }

  lemma {:induction false} ChildrenOnly(root: Info, k: nat, id: int, s: Step)
    requires k <= |root.childs| && s in Children(root, k, id)
    ensures Reached(root, s.path) && s.stmt == StatementAt(root, s.path, id)
    decreases |root.childs| - k
  {
    var child := root.childs[k];
    if s in Children(root, k + 1, id) {
      ChildrenOnly(root, k + 1, id, s);
    } else if s == Step([k], Issue(child, Equals(child.field, id))) {
      assert s.path[1..] == [] && IsPath(child, []);
    } else {
      BelowOnly(child, [k], 0, id, s);
      var q: seq<nat> :| q != [] && IsPath(child, q) && s == Step([k] + q, BelowStatement(child, q, id));
      assert s.path[1..] == q;
    }
  }

  /** For trees of any depth the plan is a post-order of the nodes that are not below a
      first-level node set to null: each of them has exactly one statement, which is the one
      for its place in the tree, and it precedes those of its ancestors. */
  lemma PlanIsPostOrder(root: Info, id: int)
    ensures PostOrder(Plan(root, id))
    ensures forall path: seq<nat> :: Reached(root, path) ==> Step(path, StatementAt(root, path, id)) in Plan(root, id)
    ensures forall s :: s in Plan(root, id) ==> Reached(root, s.path) && s.stmt == StatementAt(root, s.path, id)
  {
    ChildrenPostOrder(root, 0, id);
    var steps := Children(root, 0, id);
    var plan := Plan(root, id);
    forall i, j | 0 <= i < j < |plan|
      ensures plan[i].path != plan[j].path && !Ancestor(plan[i].path, plan[j].path)
    {
      assert plan[i] == steps[i];
      if j < |steps| {
        assert plan[j] == steps[j];
      }
    }
    forall path: seq<nat> | Reached(root, path)
      ensures Step(path, StatementAt(root, path, id)) in Plan(root, id)
    {
      PlanHas(root, path, id);
    }
    forall s | s in plan
      ensures Reached(root, s.path) && s.stmt == StatementAt(root, s.path, id)
    {
      if s in steps {
        ChildrenOnly(root, 0, id, s);
      }
    }
  }

  // ---------- effect ----------

  function Reads(s: Statement): set<int> {
    if s.cond.InSelect? then {s.cond.table} else {}
  }

  /** No statement changes or reads a table that an earlier one changed. */
  ghost predicate Independent(steps: seq<Step>) {
    forall i, j :: 0 <= i < j < |steps| ==>
      steps[i].stmt.table != steps[j].stmt.table && steps[i].stmt.table !in Reads(steps[j].stmt)
  }

  /** A statement sees the same as before if neither its table nor the one it reads changed. */
  lemma EffectLocal(db: Database, db': Database, s: Statement)
    requires Rows(db, s.table) == Rows(db', s.table)
    requires forall t :: t in Reads(s) ==> Rows(db, t) == Rows(db', t)
    ensures Effect(db, s) == Effect(db', s)
  {
    forall row: Row
      ensures Hit(db, s.cond, row) == Hit(db', s.cond, row)
    {
      if s.cond.InSelect? {
        assert s.cond.table in Reads(s);
      }
    }
  }

  /** Independent statements act as if each were evaluated on the original database. */
  lemma {:induction false} IndependentEffect(db: Database, steps: seq<Step>, t: int)
    requires Independent(steps) && forall i :: 0 <= i < |steps| ==> steps[i].stmt.table in db
    ensures (forall i :: 0 <= i < |steps| ==> steps[i].stmt.table != t) ==>
              Rows(ExecuteAll(db, steps), t) == Rows(db, t)
    ensures forall i :: 0 <= i < |steps| && steps[i].stmt.table == t ==>
              Rows(ExecuteAll(db, steps), t) == Effect(db, steps[i].stmt)
    decreases |steps|
  {
    if steps != [] {
      var s, tail := steps[0].stmt, steps[1..];
      var db' := Execute(db, s);
      IndependentEffect(db', tail, t);
      forall i | 0 <= i < |steps| && steps[i].stmt.table == t
        ensures Rows(ExecuteAll(db, steps), t) == Effect(db, steps[i].stmt)
      {
        if i == 0 {
          assert forall j :: 0 <= j < |tail| ==> tail[j] == steps[j + 1];
        } else {
          assert tail[i - 1] == steps[i];
          EffectLocal(db, db', steps[i].stmt);
        }
      }
      if forall i :: 0 <= i < |steps| ==> steps[i].stmt.table != t {
        assert forall j :: 0 <= j < |tail| ==> tail[j] == steps[j + 1];
        assert steps[0].stmt.table != t;
      }
    }
  }

  // ---------- trees over pairwise distinct tables ----------

  ghost function Tables(info: Info): set<int> {
    {info.table} + set k, t | 0 <= k < |info.childs| && t in Tables(info.childs[k]) :: t
  }

  /** No table occurs twice in the tree. */
  ghost predicate DistinctTables(info: Info) {
    && (forall k :: 0 <= k < |info.childs| ==>
          DistinctTables(info.childs[k]) && info.table !in Tables(info.childs[k]))
    && (forall j, k :: 0 <= j < k < |info.childs| ==> Tables(info.childs[j]) !! Tables(info.childs[k]))
  }

  ghost predicate Touches(steps: seq<Step>, changed: set<int>, seen: set<int>) {
    forall i :: 0 <= i < |steps| ==> steps[i].stmt.table in changed && Reads(steps[i].stmt) <= seen
  }

  ghost function TablesFrom(parent: Info, k: nat): set<int>
    requires k <= |parent.childs|
  {
    set j, t | k <= j < |parent.childs| && t in Tables(parent.childs[j]) :: t
  }

  lemma IndependentConcat(a: seq<Step>, b: seq<Step>, wa: set<int>, ra: set<int>, wb: set<int>, rb: set<int>)
    requires Independent(a) && Independent(b) && Touches(a, wa, ra) && Touches(b, wb, rb)
    requires wa !! wb && wa !! rb
    ensures Independent(a + b) && Touches(a + b, wa + wb, ra + rb)
  {
    var c := a + b;
    forall i, j | 0 <= i < j < |c|
      ensures c[i].stmt.table != c[j].stmt.table && c[i].stmt.table !in Reads(c[j].stmt)
    {
      if i < |a| && |a| <= j {
        assert c[i] == a[i] && c[j] == b[j - |a|];
      }
    }
  }

  lemma {:induction false} BelowIndependent(parent: Info, path: seq<nat>, k: nat, id: int)
    requires k <= |parent.childs| && DistinctTables(parent)
    ensures Independent(Below(parent, path, k, id))
    ensures Touches(Below(parent, path, k, id), TablesFrom(parent, k), TablesFrom(parent, k) + {parent.table})
    decreases parent, |parent.childs| - k
  {
    if k < |parent.childs| {
      var child := parent.childs[k];
      var s := Step(path + [k], Issue(child, ChildCondition(parent, child, id)));
      var a, c := Below(child, path + [k], 0, id), Below(parent, path, k + 1, id);
      BelowIndependent(child, path + [k], 0, id);
      BelowIndependent(parent, path, k + 1, id);
      var below := TablesFrom(child, 0);
      assert Tables(child) == {child.table} + below;
      IndependentConcat(a, [s], below, below + {child.table}, {child.table}, {parent.table});
      IndependentConcat(a + [s], c, below + {child.table}, below + {child.table} + {parent.table},
                        TablesFrom(parent, k + 1), TablesFrom(parent, k + 1) + {parent.table});
      assert TablesFrom(parent, k) == Tables(child) + TablesFrom(parent, k + 1);
    }
  }

  /** The tables that the statements for a first-level node and below it change. */
  ghost function TopTables(child: Info): set<int> {
    if child.setNull then {child.table} else Tables(child)
  }

  ghost function TopTablesFrom(root: Info, k: nat): set<int>
    requires k <= |root.childs|
  {
    set j, t | k <= j < |root.childs| && t in TopTables(root.childs[j]) :: t
  }

  lemma TopIndependent(child: Info, k: nat, id: int)
    requires DistinctTables(child)
    ensures Independent(TopSteps(child, k, id))
    ensures Touches(TopSteps(child, k, id), TopTables(child), Tables(child))
  {
    var s := Step([k], Issue(child, Equals(child.field, id)));
    var below := TablesFrom(child, 0);
    assert Tables(child) == {child.table} + below;
    if !child.setNull {
      BelowIndependent(child, [k], 0, id);
      IndependentConcat(Below(child, [k], 0, id), [s], below, below + {child.table}, {child.table}, {});
    }
  }

  lemma {:induction false} ChildrenIndependent(root: Info, k: nat, id: int)
    requires k <= |root.childs| && DistinctTables(root)
    ensures Independent(Children(root, k, id))
    ensures Touches(Children(root, k, id), TopTablesFrom(root, k), TablesFrom(root, k))
    decreases |root.childs| - k
  {
    if k < |root.childs| {
      var child := root.childs[k];
      TopIndependent(child, k, id);
      ChildrenIndependent(root, k + 1, id);
      assert TopTables(child) <= Tables(child);
      IndependentConcat(TopSteps(child, k, id), Children(root, k + 1, id), TopTables(child), Tables(child),
                        TopTablesFrom(root, k + 1), TablesFrom(root, k + 1));
      assert TablesFrom(root, k) == Tables(child) + TablesFrom(root, k + 1);
      assert TopTablesFrom(root, k) == TopTables(child) + TopTablesFrom(root, k + 1);
    }
  }

  lemma PlanIndependent(root: Info, id: int)
    requires DistinctTables(root)
    ensures Independent(Plan(root, id))
    ensures Touches(Plan(root, id), {root.table} + TopTablesFrom(root, 0), Tables(root))
    ensures {root.table} + TopTablesFrom(root, 0) <= Tables(root)
  {
    ChildrenIndependent(root, 0, id);
    var last := Step([], Delete(root.table, Equals(root.pk, id)));
    var top, all := TopTablesFrom(root, 0), TablesFrom(root, 0);
    assert Tables(root) == {root.table} + all;
    IndependentConcat(Children(root, 0, id), [last], top, all, {root.table}, {});
  }

  // ---------- where the statement of a node is in the plan ----------

  lemma {:induction false} BelowHas(parent: Info, path: seq<nat>, k: nat, j: nat, id: int)
    requires k <= j < |parent.childs|
    ensures Step(path + [j], Issue(parent.childs[j], ChildCondition(parent, parent.childs[j], id)))
            in Below(parent, path, k, id)
    decreases j - k
  {
    if k < j {
      BelowHas(parent, path, k + 1, j, id);
    }
  }

  lemma {:induction false} ChildrenHave(root: Info, k: nat, j: nat, id: int, s: Step)
    requires k <= j < |root.childs| && s in TopSteps(root.childs[j], j, id)
    ensures s in Children(root, k, id)
    decreases j - k
  {
    if k < j {
      ChildrenHave(root, k + 1, j, id, s);
    }
  }

  lemma StepEffect(db: Database, root: Info, id: int, s: Step)
    requires DistinctTables(root) && Tables(root) <= db.Keys && s in Plan(root, id)
    ensures Rows(ExecuteAll(db, Plan(root, id)), s.stmt.table) == Effect(db, s.stmt)
  {
    PlanIndependent(root, id);
    IndependentEffect(db, Plan(root, id), s.stmt.table);
    var i :| 0 <= i < |Plan(root, id)| && Plan(root, id)[i] == s;
  }

  // ---------- what is left of the rows ----------

  /** The rows in `hit` are deleted or have `field` set to null; the others are as before. */
  ghost predicate Outcome(before: Table, after: Table, setNull: bool, field: int, hit: Row -> bool) {
    && (forall r :: r in after <==> r in before && (setNull || !hit(before[r])))
    && (forall r :: r in after ==> after[r] == if hit(before[r]) then before[r][field := Null] else before[r])
  }

  /** A row of `child` that refers to the deleted row of the root. */
  predicate RefersToRoot(db: Database, child: Info, id: int, r: int) {
    r in Rows(db, child.table) && Refers(Rows(db, child.table)[r], child.field, id)
  }

  /** A row of `grandchild` that refers to such a row of `child`. */
  ghost predicate RefersToRemoved(db: Database, child: Info, grandchild: Info, id: int, row: Row) {
    exists r, v :: RefersToRoot(db, child, id, r) && Refers(Rows(db, child.table)[r], child.pk, v)
                   && Refers(row, grandchild.field, v)
  }

  lemma RootRows(db: Database, root: Info, id: int)
    requires DistinctTables(root) && Tables(root) <= db.Keys
    ensures Outcome(Rows(db, root.table), Rows(ExecuteAll(db, Plan(root, id)), root.table), false, root.pk,
                    row => Refers(row, root.pk, id))
  {
    var s := Step([], Delete(root.table, Equals(root.pk, id)));
    assert s in Plan(root, id);
    StepEffect(db, root, id, s);
  }

  lemma ChildRows(db: Database, root: Info, id: int, k: nat)
    requires DistinctTables(root) && Tables(root) <= db.Keys && k < |root.childs|
    ensures var child := root.childs[k];
            Outcome(Rows(db, child.table), Rows(ExecuteAll(db, Plan(root, id)), child.table),
                    child.setNull, child.field, row => Refers(row, child.field, id))
  {
    var child := root.childs[k];
    var s := Step([k], Issue(child, Equals(child.field, id)));
    ChildrenHave(root, 0, k, id, s);
    assert s in Plan(root, id);
    StepEffect(db, root, id, s);
  }

  lemma SelectHits(db: Database, child: Info, grandchild: Info, id: int, row: Row)
    requires grandchild.table != child.table || !grandchild.setNull
    ensures Hit(db, ChildCondition(child, grandchild, id), row) <==>
            RefersToRemoved(db, child, grandchild, id, row)
  {
    var t := Rows(db, child.table);
    if RefersToRemoved(db, child, grandchild, id, row) {
      var r, v :| RefersToRoot(db, child, id, r) && Refers(t[r], child.pk, v) && Refers(row, grandchild.field, v);
      assert r in t && Refers(t[r], child.field, id) && Refers(t[r], child.pk, row[grandchild.field].v);
    }
    if Hit(db, ChildCondition(child, grandchild, id), row) {
      var r :| r in t && Refers(t[r], child.field, id) && Refers(t[r], child.pk, row[grandchild.field].v);
      assert RefersToRoot(db, child, id, r) && Refers(row, grandchild.field, row[grandchild.field].v);
    }
  }

  lemma GrandchildRows(db: Database, root: Info, id: int, k: nat, j: nat)
    requires DistinctTables(root) && Tables(root) <= db.Keys
    requires k < |root.childs| && j < |root.childs[k].childs| && !root.childs[k].setNull
    ensures var child := root.childs[k];
            var g := child.childs[j];
            Outcome(Rows(db, g.table), Rows(ExecuteAll(db, Plan(root, id)), g.table),
                    g.setNull, g.field, row => RefersToRemoved(db, child, g, id, row))
  {
    var child := root.childs[k];
    var g := child.childs[j];
    var s := Step([k] + [j], Issue(g, ChildCondition(child, g, id)));
    BelowHas(child, [k], 0, j, id);
    ChildrenHave(root, 0, k, id, s);
    assert s in Plan(root, id);
    StepEffect(db, root, id, s);
    assert DistinctTables(child) && g.table in Tables(g);
    forall row: Row
      ensures Hit(db, ChildCondition(child, g, id), row) <==> RefersToRemoved(db, child, g, id, row)
    {
      SelectHits(db, child, g, id, row);
    }
  }

  /** A child in the parent's own table that is set to null: the row with the root's id loses
      its reference, and no other row changes. */
  lemma SameTableSetNull(db: Database, parent: Info, child: Info, id: int)
    requires child.setNull && child.table == parent.table
    ensures Outcome(Rows(db, child.table), Effect(db, Issue(child, ChildCondition(parent, child, id))),
                    true, child.field, row => Refers(row, parent.pk, id))
  {
  }

  /** A child in the parent's own table that is deleted: the rows that refer to a row which
      carries the root's id. */
  lemma SameTableDelete(db: Database, parent: Info, child: Info, id: int)
    requires !child.setNull && child.table == parent.table
    ensures Outcome(Rows(db, child.table), Effect(db, Issue(child, ChildCondition(parent, child, id))),
                    false, child.field, row => RefersToRemoved(db, parent, child, id, row))
  {
    forall row: Row
      ensures Hit(db, ChildCondition(parent, child, id), row) <==> RefersToRemoved(db, parent, child, id, row)
    {
      SelectHits(db, parent, child, id, row);
    }
  }

  /** A table outside the tree, or below a first-level node set to null, does not change. */
  lemma OtherTables(db: Database, root: Info, id: int, t: int)
    requires DistinctTables(root) && Tables(root) <= db.Keys
    requires t != root.table && t !in TopTablesFrom(root, 0)
    ensures Rows(ExecuteAll(db, Plan(root, id)), t) == Rows(db, t)
  {
    PlanIndependent(root, id);
    IndependentEffect(db, Plan(root, id), t);
  }

  /** No row is left that refers to the deleted row or to a row deleted with it. */
  lemma NoDangling(db: Database, root: Info, id: int, k: nat)
    requires DistinctTables(root) && Tables(root) <= db.Keys && k < |root.childs|
    ensures var db', child := ExecuteAll(db, Plan(root, id)), root.childs[k];
            && (forall r :: r in Rows(db', child.table) ==> !Refers(Rows(db', child.table)[r], child.field, id))
            && (!child.setNull ==> forall j, r, x, v ::
                  0 <= j < |child.childs| && r in Rows(db', child.childs[j].table) && RefersToRoot(db, child, id, x)
                  && Refers(Rows(db, child.table)[x], child.pk, v)
                  ==> !Refers(Rows(db', child.childs[j].table)[r], child.childs[j].field, v))
  {
    var db', child := ExecuteAll(db, Plan(root, id)), root.childs[k];
    ChildRows(db, root, id, k);
    if !child.setNull {
      forall j, r, x, v | 0 <= j < |child.childs| && r in Rows(db', child.childs[j].table)
                          && RefersToRoot(db, child, id, x) && Refers(Rows(db, child.table)[x], child.pk, v)
        ensures !Refers(Rows(db', child.childs[j].table)[r], child.childs[j].field, v)
      {
        GrandchildRows(db, root, id, k, j);
      }
    }
  }

  ghost predicate TwoLevels(root: Info) {
    forall k, j :: 0 <= k < |root.childs| && 0 <= j < |root.childs[k].childs| ==> root.childs[k].childs[j].childs == []
  }

  /** The table of a node that a two-level delete works on. */
  ghost predicate Involved(root: Info, t: int) {
    || t == root.table
    || (exists k :: 0 <= k < |root.childs| && t == root.childs[k].table)
    || (exists k, j :: 0 <= k < |root.childs| && !root.childs[k].setNull && 0 <= j < |root.childs[k].childs|
                       && t == root.childs[k].childs[j].table)
  }

  lemma TwoLevelTables(root: Info, t: int)
    requires TwoLevels(root) && t in TopTablesFrom(root, 0)
    ensures Involved(root, t)
  {
    var k :| 0 <= k < |root.childs| && t in TopTables(root.childs[k]);
    var child := root.childs[k];
    if t != child.table {
      var j :| 0 <= j < |child.childs| && t in Tables(child.childs[j]);
      assert child.childs[j].childs == [];
      assert Tables(child.childs[j]) == {child.childs[j].table};
    }
  }

  /** Cascade correctness: a successful delete over a two-level tree of distinct tables
      removes or nullifies exactly the child and grandchild rows that refer to removed
      rows, and changes nothing else. */
  lemma TwoLevelCascade(db: Database, root: Info, id: int, succeeds: nat -> bool)
    requires DistinctTables(root) && TwoLevels(root) && Tables(root) <= db.Keys
    requires RunSteps(Progress(true, [], db), Plan(root, id), succeeds).ok
    ensures var db' := RunSteps(Progress(true, [], db), Plan(root, id), succeeds).db;
            && Outcome(Rows(db, root.table), Rows(db', root.table), false, root.pk, row => Refers(row, root.pk, id))
            && (forall k :: 0 <= k < |root.childs| ==>
                  var child := root.childs[k];
                  Outcome(Rows(db, child.table), Rows(db', child.table), child.setNull, child.field,
                          row => Refers(row, child.field, id)))
            && (forall k, j :: 0 <= k < |root.childs| && !root.childs[k].setNull && 0 <= j < |root.childs[k].childs| ==>
                  var child, g := root.childs[k], root.childs[k].childs[j];
                  Outcome(Rows(db, g.table), Rows(db', g.table), g.setNull, g.field,
                          row => RefersToRemoved(db, child, g, id, row)))
            && (forall t :: !Involved(root, t) ==> Rows(db', t) == Rows(db, t))
  {
    var n := PrefixOfPlan(Progress(true, [], db), Plan(root, id), succeeds);
    RootRows(db, root, id);
    forall k | 0 <= k < |root.childs|
      ensures var child := root.childs[k];
              Outcome(Rows(db, child.table), Rows(ExecuteAll(db, Plan(root, id)), child.table), child.setNull, child.field,
                      row => Refers(row, child.field, id))
    {
      ChildRows(db, root, id, k);
    }
    forall k, j | 0 <= k < |root.childs| && !root.childs[k].setNull && 0 <= j < |root.childs[k].childs|
      ensures var child, g := root.childs[k], root.childs[k].childs[j];
              Outcome(Rows(db, g.table), Rows(ExecuteAll(db, Plan(root, id)), g.table), g.setNull, g.field,
                      row => RefersToRemoved(db, child, g, id, row))
    {
      GrandchildRows(db, root, id, k, j);
    }
    forall t | !Involved(root, t)
      ensures Rows(ExecuteAll(db, Plan(root, id)), t) == Rows(db, t)
    {
      if t in TopTablesFrom(root, 0) {
        TwoLevelTables(root, t);
      }
      OtherTables(db, root, id, t);
    }
  }
}
