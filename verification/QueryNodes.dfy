/** Executing a query plan by pull iterators: table scans and nested-loop joins that feed their right side. */
module QueryNodes {
  import opened Common
  import opened Rows
  import opened Conditions
  import opened TableIndexes
  import opened TableScan
  import opened Plans

  class QlNode {
    const table: TableNode?
    const left: QlNode?
    const right: QlNode?
    const cols: seq<Column>
    const len: nat
    var prevFeed: Env
    ghost const store: set<object>
    ghost const plan: Plan
    ghost var fed: Env
    ghost var Repr: set<object>
    ghost var todo: set<Tuple>
    ghost var current: Tuple

    /** The node and its children lie apart from each other and from the tables. */
    ghost predicate Apart()
      reads this, Repr
    {
      var ok :=
        && this in Repr && Repr !! store
        && (table != null ==> table in Repr && table.Repr <= Repr && this !in table.Repr && table.store == store)
        && (left != null ==> left in Repr && left.Repr <= Repr && this !in left.Repr && left.store == store)
        && (right != null ==> right in Repr && right.Repr <= Repr && this !in right.Repr && right.store == store)
        && (left != null && right != null ==> left.Repr !! right.Repr);
      ok
    }

    ghost predicate IsTable()
      reads this, Repr
    {
      var ok :=
        && table != null && table in Repr && left == null && right == null
        && plan == Scan(table.table.name, table.cols, table.recs, table.conds)
        && table.fedConds == FedConds(plan.tab, plan.conds, fed);
      ok
    }

    ghost predicate IsJoin()
      reads this, Repr
    {
      var ok :=
        && table == null && left != null && right != null && left in Repr && right in Repr
        && plan == Join(left.plan, right.plan) && left.fed == fed && prevFeed == fed;
      ok
    }

    /** The node is put together as its plan says. */
    ghost predicate Linked()
      reads this, Repr, store
      decreases plan
    {
      var ok :=
        && Apart() && PlanOk(plan) && cols == PlanCols(plan) && len == PlanLen(plan)
        && if plan.Scan? then IsTable() && table.Linked() else IsJoin() && left.Linked() && right.Linked();
      ok
    }

    /** The row at which the node stands belongs to what is left. */
    ghost predicate AtTable()
      reads this, Repr
    {
      var ok := table != null && table in Repr && todo == Singles(table.todo)
        && (todo != {} ==> current == [table.rid]);
      ok
    }

    /** What is left of a join: nothing, when the left side is at its end, or else the rest of the right side
        for the current left row and all of it for the left rows to come. */
    ghost predicate AtJoin()
      reads this, Repr
    {
      var ok :=
        && left != null && right != null && left in Repr && right in Repr
        && left.todo <= Yield(left.plan, fed) && (left.todo == {} <==> todo == {})
        && (left.todo != {} ==> AtRight() && right.todo != {} && current == left.current + right.current);
      ok
    }

    /** The right side delivers for the current left row. */
    ghost predicate AtRight()
      reads this, Repr
    {
      var ok :=
        && left != null && right != null && left in Repr && right in Repr
        && left.todo <= Yield(left.plan, fed) && left.current in left.todo
            && right.fed == FedRight(left.plan, left.current, fed)
        && right.todo <= Yield(right.plan, right.fed)
        && todo == Remaining(left.plan, right.plan, fed, left.todo, left.current, right.todo);
      ok
    }

    /** The node is under way: todo holds the combinations still to be delivered, the current one included. */
    ghost predicate Open()
      reads this, Repr, store
      decreases plan
    {
      var ok :=
        && Linked() && PlanReady(plan, fed) && (todo != {} ==> current in todo)
        && if plan.Scan? then table.Open() && AtTable() else left.Open() && AtJoin() && (left.todo != {} ==>
            right.Open());
      ok
    }

    constructor Leaf(table: TableNode)
      requires table.Linked() && table.fedConds == table.conds
      requires PlanOk(Scan(table.table.name, table.cols, table.recs, table.conds))
      ensures Linked() && plan == Scan(table.table.name, table.cols, table.recs, table.conds)
      ensures fed == map[] && store == table.store && Repr == {this} + table.Repr
    {
      hide PlanOk, TableNode.Linked, FedConds;
      table.LinkedApart();
      FeedNothing(table.table.name, table.conds);
      this.table, left, right, prevFeed := table, null, null, map[];
      cols, len := table.cols, RecordSize(table.cols);
      plan := Scan(table.table.name, table.cols, table.recs, table.conds);
      store, fed, Repr, todo, current := table.store, map[], {this} + table.Repr, {}, [];
    }

    constructor Over(left: QlNode, right: QlNode)
      requires left.Linked() && right.Linked() && left.Repr !! right.Repr && left.store == right.store
      requires left.fed == map[]
      requires PlanOk(Join(left.plan, right.plan))
      ensures Linked() && plan == Join(left.plan, right.plan) && fed == map[] && store == left.store
      ensures Repr == {this} + left.Repr + right.Repr
    {
      hide PlanOk, Shift, TableNode.Linked, QlNode.IsTable;
      table, this.left, this.right, prevFeed := null, left, right, map[];
      cols, len := left.cols + Shift(right.cols, left.len), left.len + right.len;
      plan := Join(left.plan, right.plan);
      store, fed, Repr, todo, current := left.store, map[], {this} + left.Repr + right.Repr, {}, [];
    }

    lemma {:induction false} LinkedParts()
      requires Linked()
      ensures Apart() && PlanOk(plan) && cols == PlanCols(plan) && len == PlanLen(plan)
      ensures plan.Scan? ==> IsTable() && table.Linked()
      ensures plan.Join? ==> IsJoin() && left.Linked() && right.Linked() && left.plan < plan && right.plan < plan
    {
    }

    /** The parts of a join know where they lie. */
    lemma {:induction false} JoinParts()
      requires Linked() && plan.Join?
      ensures Apart() && PlanOk(plan) && cols == PlanCols(plan) && len == PlanLen(plan) && IsJoin()
      ensures left.Linked() && right.Linked() && left.plan < plan && right.plan < plan && left.Apart() && right.Apart()
    {
    }

    lemma {:induction false} OpenParts()
      requires Open()
      ensures Linked() && PlanReady(plan, fed) && (todo != {} ==> current in todo)
      ensures plan.Scan? ==> IsTable() && table.Open() && AtTable()
      ensures plan.Join? ==> IsJoin() && left.Open() && AtJoin() && (left.todo != {} ==> right.Open())
    {
    }

    predicate IsEnd()
      reads this, Repr, store
      requires Open()
      decreases plan
    {
      OpenParts(); LinkedParts();
      if table != null then table.IsEnd() else left.IsEnd()
    }

    lemma {:induction false} EndIff()
      requires Open()
      ensures IsEnd() <==> todo == {}
      decreases plan
    {
      hide QlNode.Open, QlNode.Linked, PlanOk, PlanReady, AtRight, Yield, Singles, PlanCols, TableNode.Open,
        TableNode.Linked;
      OpenParts();
      LinkedParts();
      if table != null {
        SinglesFacts(table.todo, table.rid);
      } else {
        left.EndIff();
      }
    }

    /** Passes the values of tables further left on to the conditions that wait for them. */
    method Feed(dict: Env)
      requires Linked() && PlanFed(plan, dict.Keys)
      modifies Repr
      ensures Linked() && fed == dict && Repr == old(Repr)
      decreases plan
    {
      hide PlanOk, PlanReady, Remaining, Yield, Singles, PlanCols, TableNode.Linked;
      if table != null {
        table.Feed(dict);
      } else {
        prevFeed := dict;
        left.Feed(dict);
      }
      fed := dict;
    }

    /** The row the node stands at. */
    method Rec() returns (rec: Bytes)
      requires Open() && !IsEnd()
      ensures LiveTuple(plan, current) && rec == PlanRec(plan, current)
      decreases plan
    {
      hide QlNode.Open, QlNode.Linked, PlanOk, PlanReady, AtRight, Yield, Singles, PlanCols, TableNode.Open,
        TableNode.Linked,
        LiveTuple, PlanRec;
      OpenParts();
      LinkedParts();
      EndIff();
      if table != null {
        rec := RecTable();
      } else {
        CurrentParts();
        var a := left.Rec();
        var b := right.Rec();
        rec := a + b;
        CurrentSplit(left.plan, right.plan, left.current, right.current);
      }
    }

    method RecTable() returns (rec: Bytes)
      requires IsTable() && table.Open() && AtTable() && todo != {}
      ensures LiveTuple(plan, current) && rec == PlanRec(plan, current)
    {
      SinglesFacts(table.todo, table.rid);
      rec := table.Rec();
      ScanRow(plan, table.rid);
    }

    lemma {:induction false} CurrentParts()
      requires plan.Join? && Open() && todo != {}
      ensures !left.IsEnd() && !right.IsEnd()
      ensures |left.current| == Width(left.plan) && LiveTuple(left.plan, left.current)
      ensures |right.current| == Width(right.plan) && LiveTuple(right.plan, right.current)
    {
      hide QlNode.Open, QlNode.Linked;
      OpenParts();
      left.OpenParts();
      right.OpenParts();
      left.EndIff();
      right.EndIff();
      YieldShape(left.plan, fed, left.current);
      YieldShape(right.plan, right.fed, right.current);
    }

    lemma {:induction false} Assemble()
      requires Linked() && PlanReady(plan, fed) && (todo != {} ==> current in todo)
      requires plan.Scan? ==> table != null && table.Open() && AtTable()
      requires plan.Join? ==>
        left != null && right != null && left.Open() && AtJoin() && (left.todo != {} ==> right.Open())
      ensures Open()
    {
    }

    /** The two sides of a join share nothing with each other or with the join itself. */
    lemma {:induction false} Separate()
      requires Linked() && plan.Join?
      ensures left != null && right != null && left.plan < plan && right.plan < plan
      ensures plan == Join(left.plan, right.plan)
      ensures left.Linked() && right.Linked() && left in left.Repr && right in right.Repr && this in Repr
      ensures left.Repr <= Repr && right.Repr <= Repr && left.Repr !! right.Repr && this !in left.Repr
      ensures this !in right.Repr
      ensures left.fed == fed && prevFeed == fed && Repr !! store && left.store == store && right.store == store
    {
    }

    /** A side that has grown by fresh objects is still the side of the join, once the join counts them in. */
    twostate lemma {:induction false} RightGrown()
      requires old(Linked()) && plan.Join? && left.Linked() && right.Linked()
      requires fed == old(fed) && prevFeed == old(prevFeed) && left.fed == old(left.fed) && left.Repr == old(left.Repr)
      requires fresh(right.Repr - old(right.Repr)) && Repr == old(Repr) + right.Repr
      ensures Linked()
    {
    }

    /** The place where a join stands does not matter for how it is put together. */
    twostate lemma {:induction false} CurrentMoved()
      requires old(Linked()) && plan.Join? && left.Linked() && right.Linked()
      requires fed == old(fed) && prevFeed == old(prevFeed) && left.fed == old(left.fed) && Repr == old(Repr)
      requires left.Repr == old(left.Repr) && right.Repr == old(right.Repr)
      ensures Linked()
    {
    }

    twostate lemma {:induction false} LeftGrown()
      requires old(Linked()) && plan.Join? && left.Linked() && right.Linked()
      requires fed == old(fed) && prevFeed == old(prevFeed) && left.fed == old(left.fed)
      requires right.Repr == old(right.Repr)
      requires fresh(left.Repr - old(left.Repr)) && Repr == old(Repr) + left.Repr
      ensures Linked()
    {
    }

    /** Links stay as long as the children's do. */
    lemma {:induction false} Relink()
      requires Apart() && PlanOk(plan) && cols == PlanCols(plan) && len == PlanLen(plan)
      requires plan.Scan? ==> IsTable() && table.Linked()
      requires plan.Join? ==> IsJoin() && left.Linked() && right.Linked()
      ensures Linked()
    {
    }

    /** feed_right: the current left row's values go to the right side, behind those fed from outside. */
    method FeedRight()
      requires Linked() && plan.Join? && PlanReady(plan, fed)
      requires left.Open() && left.todo <= Yield(left.plan, fed) && left.todo != {}
      modifies right.Repr
      ensures right.Linked() && right.fed == FedRight(left.plan, left.current, fed) && right.Repr == old(right.Repr)
      ensures PlanReady(right.plan, right.fed)
      decreases plan, 0, 0
    {
      hide QlNode.Open, QlNode.Linked, PlanOk, PlanCols, Yield, LiveTuple, PlanRec, FedRight, Dict, PlanReady;
      LinkedParts();
      left.LinkedParts();
      left.OpenParts();
      left.EndIff();
      var rec := left.Rec();
      LeftRow(plan, left.cols, left.current, rec, fed);
      var leftDict := Rec2Dict(left.cols, rec);
      ReadyRight(plan, fed, left.current);
      right.Feed(leftDict + prevFeed);
    }

    /** Starts the right side for the current left row. */
    method EnterRight()
      requires Linked() && plan.Join? && PlanReady(plan, fed)
      requires left.Open() && left.todo <= Yield(left.plan, fed) && left.todo != {}
      requires todo == JoinRows(left.plan, right.plan, fed, left.todo)
      modifies this`Repr, right.Repr
      ensures Linked() && left.Open() && AtRight() && right.Open() && fresh(Repr - old(Repr))
      ensures todo == old(todo) && fed == old(fed) && left.todo == old(left.todo)
      decreases plan, 1
    {
      hide QlNode.Open, QlNode.Linked, QlNode.Apart, QlNode.IsJoin, QlNode.IsTable, QlNode.AtTable, PlanOk,
        PlanReady, PlanCols, Yield, JoinRows, FedRight, Remaining;
      Separate();
      left.OpenParts();
      EnterRows(left.plan, right.plan, fed, left.todo, left.current);
      StartRight();
      Separate();
    }

    /** Feeds the right side and starts it. */
    method StartRight()
      requires Linked() && plan.Join? && PlanReady(plan, fed)
      requires left.Open() && left.todo <= Yield(left.plan, fed) && left.todo != {}
      modifies this`Repr, right.Repr
      ensures Linked() && plan.Join? && left.Open() && right.Open() && fresh(Repr - old(Repr))
      ensures todo == old(todo) && fed == old(fed) && left.todo == old(left.todo) && left.current == old(left.current)
      ensures right.fed == FedRight(left.plan, left.current, fed) && right.todo == Yield(right.plan, right.fed)
      decreases plan, 0, 1
    {
      hide QlNode.Open, QlNode.Linked, QlNode.Apart, QlNode.IsJoin, QlNode.IsTable, QlNode.AtTable, QlNode.AtRight,
        PlanOk, PlanReady, PlanCols, Yield, FedRight;
      Separate();
      left.OpenParts();
      FeedRight();
      right.Begin();
      right.OpenParts();
      Repr := Repr + right.Repr;
      RightGrown();
    }

    /** Moves on through the left rows until the right side has something for one of them. */
    method Settle()
      requires Linked() && plan.Join? && PlanReady(plan, fed) && left.Open() && AtRight() && right.Open()
      modifies Repr
      ensures Open() && todo == old(todo) && fed == old(fed) && fresh(Repr - old(Repr))
      decreases plan, 3
    {
      hide QlNode.Open, QlNode.Linked, PlanOk, PlanReady, PlanCols, Yield, JoinRows, FedRight, AtRight, AtJoin;
      JoinParts();
      right.EndIff();
      while right.IsEnd()
        invariant Linked() && PlanReady(plan, fed) && left.Open() && AtRight() && right.Open()
        invariant right.IsEnd() <==> right.todo == {}
        invariant todo == old(todo) && fed == old(fed) && fresh(Repr - old(Repr))
        decreases left.todo
      {
        var more := NextLeft();
        if !more {
          JoinParts();
          Assemble();
          return;
        }
        right.EndIff();
      }
      SetCurrent();
    }

    /** Moves to the next left row when the right side is at its end, and starts the right side for it. */
    method NextLeft() returns (more: bool)
      requires Linked() && plan.Join? && PlanReady(plan, fed) && left.Open() && AtRight() && right.Open()
      requires right.todo == {}
      modifies Repr
      ensures Linked() && PlanReady(plan, fed) && left.Open() && left.todo < old(left.todo) && todo == old(todo)
      ensures fed == old(fed)
      ensures fresh(Repr - old(Repr))
      ensures !more ==> AtJoin() && todo == {} && left.todo == {}
      ensures more ==> AtRight() && right.Open()
      decreases plan, 2
    {
      hide QlNode.Open, QlNode.Linked, QlNode.Apart, QlNode.IsJoin, QlNode.IsTable, QlNode.AtTable, PlanOk,
        PlanReady, PlanCols,
        Yield, JoinRows, FedRight, Remaining;
      Separate();
      NoRightLeft(left.plan, right.plan, fed, left.todo, left.current);
      StepLeft();
      Separate();
      left.EndIff();
      if left.IsEnd() {
        return false;
      }
      EnterRight();
      return true;
    }

    /** Moves the left side alone. */
    method StepLeft()
      requires Linked() && plan.Join? && left.Open() && left.todo != {}
      modifies Repr
      ensures Linked() && plan.Join? && left.Open() && left.todo == old(left.todo) - {old(left.current)}
      ensures fresh(Repr - old(Repr))
      ensures todo == old(todo) && fed == old(fed)
      decreases plan, 1
    {
      hide QlNode.Open, QlNode.Linked, QlNode.Apart, QlNode.IsJoin, QlNode.IsTable, QlNode.AtTable, QlNode.AtJoin,
        QlNode.AtRight,
        PlanOk, PlanReady, PlanCols;
      Separate();
      left.OpenParts();
      left.Next();
      left.OpenParts();
      Repr := Repr + left.Repr;
      LeftGrown();
    }

    method SetCurrent()
      requires Linked() && plan.Join? && PlanReady(plan, fed) && left.Open() && AtRight() && right.Open()
      requires right.todo != {}
      modifies this`current
      ensures Open()
    {
      hide QlNode.Open, QlNode.Linked, QlNode.Apart, QlNode.IsJoin, QlNode.IsTable, QlNode.AtTable, PlanOk,
        PlanReady, PlanCols,
        Yield, JoinRows, FedRight, Remaining;
      Separate();
      left.OpenParts();
      right.OpenParts();
      CurrentRemains(left.plan, right.plan, fed, left.todo, left.current, right.todo, right.current);
      current := left.current + right.current;
      CurrentMoved();
      Assemble();
    }

    /** Starts the node: it is about to deliver everything that its plan yields for the values fed. */
    method Begin()
      requires Linked() && PlanReady(plan, fed)
      modifies Repr
      ensures Open() && todo == Yield(plan, fed) && fed == old(fed) && fresh(Repr - old(Repr))
      decreases plan, 6
    {
      hide QlNode.Open, QlNode.Linked, PlanOk, PlanReady, PlanCols, Yield, JoinRows, FedRight, Ready;
      LinkedParts();
      if table != null {
        BeginTable();
      } else {
        BeginJoin();
      }
    }

    method BeginTable()
      requires Linked() && PlanReady(plan, fed) && plan.Scan?
      modifies Repr
      ensures Open() && todo == Yield(plan, fed) && fed == old(fed) && fresh(Repr - old(Repr))
    {
      hide QlNode.Open, QlNode.Linked, PlanOk, PlanCols, Ready, TableNode.Linked, TableNode.ScanOk, Qualified;
      LinkedParts();
      ScanReady(plan, fed);
      table.Begin();
      table.LinkedApart();
      Repr, todo := Repr + table.Repr, Singles(table.todo);
      SinglesFacts(table.todo, table.rid);
      if table.todo != {} { table.AtTodo(); }
      current := [table.rid];
      Relink();
      Assemble();
    }

    method BeginJoin()
      requires Linked() && PlanReady(plan, fed) && plan.Join?
      modifies Repr
      ensures Open() && todo == Yield(plan, fed) && fed == old(fed) && fresh(Repr - old(Repr))
      decreases plan, 5
    {
      hide QlNode.Open, QlNode.Linked, QlNode.Apart, QlNode.IsJoin, QlNode.IsTable, QlNode.AtTable, PlanOk,
        PlanReady, PlanCols,
        Yield, JoinRows, FedRight, Remaining, QlNode.AtRight;
      Separate();
      BeginLeft();
      Separate();
      NoLefts(left.plan, right.plan, fed);
      left.EndIff();
      if left.IsEnd() {
        Assemble();
        return;
      }
      EnterRight();
      Settle();
    }

    method BeginLeft()
      requires Linked() && PlanReady(plan, fed) && plan.Join?
      modifies Repr
      ensures Linked() && left.Open() && left.todo == Yield(left.plan, fed) && fed == old(fed)
      ensures fresh(Repr - old(Repr))
      ensures todo == Yield(plan, fed) == JoinRows(left.plan, right.plan, fed, left.todo)
      decreases plan, 4
    {
      hide QlNode.Open, QlNode.Linked, QlNode.Apart, QlNode.IsJoin, QlNode.IsTable, QlNode.AtTable, PlanOk,
        PlanReady, PlanCols,
        Yield, JoinRows, FedRight, Remaining, QlNode.AtRight, QlNode.AtJoin;
      Separate();
      LeftReady(plan, fed);
      left.Begin();
      left.OpenParts();
      Repr, todo := Repr + left.Repr, JoinRows(left.plan, right.plan, fed, left.todo);
      LeftGrown();
      YieldJoin(plan, fed);
    }

    /** Moves to the next combination. */
    method Next()
      requires Open() && todo != {}
      modifies Repr
      ensures Open() && todo == old(todo) - {old(current)} && fed == old(fed) && fresh(Repr - old(Repr))
      decreases plan, 6
    {
      hide QlNode.Open, QlNode.Linked, PlanOk, PlanReady, PlanCols, Yield, JoinRows, FedRight, AtRight, AtJoin, AtTable;
      OpenParts();
      LinkedParts();
      if table != null {
        NextTable();
      } else {
        NextJoin();
      }
    }

    method NextTable()
      requires Open() && todo != {} && plan.Scan?
      modifies Repr
      ensures Open() && todo == old(todo) - {old(current)} && fed == old(fed) && fresh(Repr - old(Repr))
    {
      hide QlNode.Open, QlNode.Linked, PlanOk, PlanReady, PlanCols, Ready, TableNode.Linked, TableNode.ScanOk,
        Qualified;
      OpenParts();
      LinkedParts();
      SinglesFacts(table.todo, table.rid);
      table.Next();
      todo := todo - {current};
      SinglesFacts(table.todo, table.rid);
      if table.todo != {} { table.AtTodo(); }
      current := [table.rid];
      Relink();
      Assemble();
    }

    method NextJoin()
      requires Open() && todo != {} && plan.Join?
      modifies Repr
      ensures Open() && todo == old(todo) - {old(current)} && fed == old(fed) && fresh(Repr - old(Repr))
      decreases plan, 5
    {
      hide QlNode.Open, QlNode.Linked, QlNode.Apart, QlNode.IsTable, QlNode.AtTable, QlNode.AtRight, PlanOk, PlanReady,
        PlanCols, Yield, JoinRows, FedRight, Remaining;
      OpenParts();
      Separate();
      StepRight();
      Settle();
    }

    /** Takes the combination delivered out of what is left. */
    method StepRight()
      requires Linked() && plan.Join? && left.Open() && AtRight() && right.Open() && right.todo != {}
      requires current == left.current + right.current
      modifies Repr
      ensures Linked() && left.Open() && AtRight() && right.Open() && fed == old(fed) && fresh(Repr - old(Repr))
      ensures todo == old(todo) - {old(current)}
      decreases plan, 4
    {
      hide QlNode.Open, QlNode.Linked, QlNode.Apart, QlNode.IsJoin, QlNode.IsTable, QlNode.AtTable, QlNode.AtJoin,
        PlanOk,
        PlanReady, PlanCols, Yield, JoinRows, FedRight, Remaining;
      Separate();
      right.OpenParts();
      RightStep(left.plan, right.plan, fed, left.todo, left.current, right.todo, right.current);
      PullRight();
      Separate();
      label Pulled:
      todo := todo - {current};
      CurrentMoved@Pulled();
    }

    /** Moves the right side alone. */
    method PullRight()
      requires Linked() && plan.Join? && left.Open() && right.Open() && right.todo != {}
      modifies Repr
      ensures Linked() && plan.Join? && left.Open() && right.Open() && fresh(Repr - old(Repr))
      ensures right.todo == old(right.todo) - {old(right.current)} && right.fed == old(right.fed)
      ensures left.todo == old(left.todo) && left.current == old(left.current)
      ensures todo == old(todo) && fed == old(fed) && current == old(current)
      decreases plan, 1
    {
      hide QlNode.Open, QlNode.Linked, QlNode.Apart, QlNode.IsJoin, QlNode.IsTable, QlNode.AtTable, QlNode.AtJoin,
        QlNode.AtRight,
        PlanOk, PlanReady, PlanCols;
      Separate();
      left.OpenParts();
      right.OpenParts();
      right.Next();
      right.OpenParts();
      Repr := Repr + right.Repr;
      RightGrown();
    }
  }

  lemma {:induction false} ScanReady(p: Plan, fed: Env)
    requires p.Scan? && PlanReady(p, fed)
    ensures Ready(p.cols, FedConds(p.tab, p.conds, fed))
    ensures Yield(p, fed) == Singles(Qualified(p.cols, p.recs, FedConds(p.tab, p.conds, fed)))
  {
  }

  lemma {:induction false} LeftReady(p: Plan, fed: Env)
    requires p.Join? && PlanReady(p, fed)
    ensures PlanReady(p.left, fed)
  {
  }

  lemma {:induction false} YieldJoin(p: Plan, fed: Env)
    requires p.Join?
    ensures Yield(p, fed) == JoinRows(p.left, p.right, fed, Yield(p.left, fed))
  {
  }

  lemma {:induction false} NoLefts(l: Plan, r: Plan, fed: Env)
    ensures JoinRows(l, r, fed, {}) == {}
  {
  }

  lemma {:induction false} EnterRows(l: Plan, r: Plan, fed: Env, lefts: set<Tuple>, a: Tuple)
    requires lefts <= Yield(l, fed) && a in lefts
    ensures LiveTuple(l, a)
    ensures Remaining(l, r, fed, lefts, a, Yield(r, FedRight(l, a, fed))) == JoinRows(l, r, fed, lefts)
  {
    JoinRowsSplit(l, r, fed, lefts, a);
  }

  lemma {:induction false} NoRightLeft(l: Plan, r: Plan, fed: Env, lefts: set<Tuple>, a: Tuple)
    requires lefts <= Yield(l, fed)
    ensures Remaining(l, r, fed, lefts, a, {}) == JoinRows(l, r, fed, lefts - {a})
    ensures JoinRows(l, r, fed, {}) == {}
  {
    NoLefts(l, r, fed);
    assert Cross(a, {}) == {};
  }

  lemma {:induction false} CurrentRemains(l: Plan, r: Plan, fed: Env, lefts: set<Tuple>, a: Tuple, rights: set<Tuple>,
                                          b: Tuple)
    requires lefts <= Yield(l, fed) && b in rights
    ensures a + b in Remaining(l, r, fed, lefts, a, rights)
  {
    assert a + b in Cross(a, rights);
  }

  /** Each combination is delivered once: taking the current one out leaves the others. */
  lemma {:induction false} RightStep(l: Plan, r: Plan, fed: Env, lefts: set<Tuple>, a: Tuple, rights: set<Tuple>,
                                     b: Tuple)
    requires lefts <= Yield(l, fed) && a in lefts && b in rights
    requires LiveTuple(l, a) && rights <= Yield(r, FedRight(l, a, fed))
    ensures Remaining(l, r, fed, lefts, a, rights - {b}) == Remaining(l, r, fed, lefts, a, rights) - {a + b}
  {
    hide JoinRows, Yield;
    JoinRowsSplit(l, r, fed, lefts, a);
    assert a + b in Cross(a, Yield(r, FedRight(l, a, fed)));
    CrossStep(a, rights, b);
  }

  lemma CrossStep(a: Tuple, rights: set<Tuple>, b: Tuple)
    ensures Cross(a, rights - {b}) == Cross(a, rights) - {a + b}
  {
    forall t | t in Cross(a, rights - {b}) ensures t != a + b {
      var c :| c in rights - {b} && t == a + c;
      assert (a + c)[|a|..] == c && (a + b)[|a|..] == b;
    }
  }

  lemma {:induction false} ReadyRight(p: Plan, fed: Env, a: Tuple)
    requires p.Join? && PlanReady(p, fed) && a in Yield(p.left, fed)
    ensures LiveTuple(p.left, a) && PlanReady(p.right, FedRight(p.left, a, fed))
    ensures PlanFed(p.right, FedRight(p.left, a, fed).Keys)
  {
    ReadyFed(p.right, FedRight(p.left, a, fed));
  }

  lemma {:induction false} LeftRow(p: Plan, cols: seq<Column>, a: Tuple, rec: Bytes, fed: Env)
    requires p.Join? && PlanOk(p) && LiveTuple(p.left, a) && cols == PlanCols(p.left) && rec == PlanRec(p.left, a)
    ensures DistinctNames(cols)
    ensures forall i :: 0 <= i < |cols| ==> WidthOk(cols[i].ty, cols[i].len) && FieldOk(cols[i], Field(rec, cols[i]))
    ensures Dict(cols, rec) + fed == FedRight(p.left, a, fed)
  {
    PlanLaidOut(p.left);
    PlanRowOk(p.left, a);
  }

  lemma {:induction false} ScanRow(p: Plan, rid: RecordID)
    requires p.Scan? && rid in p.recs
    ensures LiveTuple(p, [rid]) && PlanRec(p, [rid]) == p.recs[rid]
  {
  }

  lemma {:induction false} YieldShape(p: Plan, fed: Env, t: Tuple)
    requires t in Yield(p, fed)
    ensures |t| == Width(p) && LiveTuple(p, t)
  {
  }

  lemma {:induction false} CurrentSplit(l: Plan, r: Plan, a: Tuple, b: Tuple)
    requires LiveTuple(l, a) && |a| == Width(l) && LiveTuple(r, b) && |b| == Width(r)
    ensures LiveTuple(Join(l, r), a + b) && PlanRec(Join(l, r), a + b) == PlanRec(l, a) + PlanRec(r, b)
  {
    assert (a + b)[..Width(l)] == a && (a + b)[Width(l)..] == b;
  }
}
