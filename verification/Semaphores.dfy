/** The semaphore discipline of the engine: threads that wait in one order never block each other for good. */
module Semaphores {
  datatype Sem = Metadata | FileHandles | IndexHandles | FdMap | Cache

  /** A semaphore also names what it protects: the database metadata, the maps of file and of index handles, the maps of
      file descriptors, and the lists of the page cache. Read and Update are accesses to that. */
  datatype Action = Wait(sem: Sem) | Post(sem: Sem) | Read(sem: Sem) | Update(sem: Sem)

  type Program = seq<Action>

  /** The order in which nested waits are made. */
  function Rank(s: Sem): nat {
    match s
    case Metadata => 0
    case FileHandles => 1
    case IndexHandles => 2
    case FdMap => 3
    case Cache => 4
  }

  datatype Held = Broken | Held(sems: set<Sem>)

  ghost predicate Above(s: Sem, sems: set<Sem>) {
    forall h :: h in sems ==> Rank(h) < Rank(s)
  }

  /** What is held after a program, when each wait is above all that is held and each post releases something held. */
  ghost function Run(sems: set<Sem>, prog: Program): Held
    decreases |prog|
  {
    if prog == [] then Held(sems)
    else match prog[0]
      case Wait(s) => if Above(s, sems) then Run(sems + {s}, prog[1..]) else Broken
      case Post(s) => if s in sems then Run(sems - {s}, prog[1..]) else Broken
      case Read(_) => Run(sems, prog[1..])
      case Update(_) => Run(sems, prog[1..])
  }

  /** Keeps the order and in the end releases what it took. */
  ghost predicate Disciplined(sems: set<Sem>, prog: Program) {
    Run(sems, prog) == Held(sems)
  }

  lemma {:induction false} RunConcat(sems: set<Sem>, a: Program, b: Program)
    ensures Run(sems, a + b) == if Run(sems, a).Held? then Run(Run(sems, a).sems, b) else Broken
    decreases |a|
  {
    if a == [] {
      assert a + b == b;
    } else {
      assert (a + b)[0] == a[0] && (a + b)[1..] == a[1..] + b;
      match a[0]
      case Wait(s) => RunConcat(sems + {s}, a[1..], b);
      case Post(s) => RunConcat(sems - {s}, a[1..], b);
      case _ => RunConcat(sems, a[1..], b);
    }
  }

  /** An access, and the semaphores held at it. */
  datatype Access = Access(act: Action, held: set<Sem>)

  /** The accesses of a program in order. */
  function Log(sems: set<Sem>, prog: Program): seq<Access>
    decreases |prog|
  {
    if prog == [] then []
    else match prog[0]
      case Wait(s) => Log(sems + {s}, prog[1..])
      case Post(s) => Log(sems - {s}, prog[1..])
      case act => [Access(act, sems)] + Log(sems, prog[1..])
  }

  lemma {:induction false} LogConcat(sems: set<Sem>, a: Program, b: Program)
    requires Run(sems, a).Held?
    ensures Log(sems, a + b) == Log(sems, a) + Log(Run(sems, a).sems, b)
    decreases |a|
  {
    if a == [] {
      assert a + b == b;
    } else {
      assert (a + b)[0] == a[0] && (a + b)[1..] == a[1..] + b;
      match a[0]
      case Wait(s) => LogConcat(sems + {s}, a[1..], b);
      case Post(s) => LogConcat(sems - {s}, a[1..], b);
      case _ => LogConcat(sems, a[1..], b);
    }
  }

  function Repeat(n: nat, prog: Program): Program {
    if n == 0 then [] else prog + Repeat(n - 1, prog)
  }

  function Guard(s: Sem, body: Program): Program {
    [Wait(s)] + body + [Post(s)]
  }

  /** From these semaphores on, the program is disciplined and makes exactly these accesses. */
  ghost predicate Does(sems: set<Sem>, prog: Program, log: seq<Access>) {
    Disciplined(sems, prog) && Log(sems, prog) == log
  }

  lemma DoesNothing(sems: set<Sem>)
    ensures Does(sems, [], [])
  {
  }

  lemma DoesOne(sems: set<Sem>, act: Action)
    requires act.Read? || act.Update?
    ensures Does(sems, [act], [Access(act, sems)])
  {
    assert [act][1..] == [];
  }

  lemma Then(sems: set<Sem>, a: Program, x: seq<Access>, b: Program, y: seq<Access>)
    requires Does(sems, a, x) && Does(sems, b, y)
    ensures Does(sems, a + b, x + y)
  {
    RunConcat(sems, a, b);
    LogConcat(sems, a, b);
  }

  lemma Guarding(sems: set<Sem>, s: Sem, body: Program, log: seq<Access>)
    requires Above(s, sems) && Does(sems + {s}, body, log)
    ensures Does(sems, Guard(s, body), log)
  {
    assert s !in sems;
    assert [Wait(s)][1..] == [] && [Post(s)][1..] == [];
    RunConcat(sems, [Wait(s)] + body, [Post(s)]);
    RunConcat(sems, [Wait(s)], body);
    LogConcat(sems, [Wait(s)] + body, [Post(s)]);
    LogConcat(sems, [Wait(s)], body);
    assert sems + {s} - {s} == sems;
  }

  function RepeatLog(n: nat, log: seq<Access>): seq<Access> {
    if n == 0 then [] else log + RepeatLog(n - 1, log)
  }

  lemma {:induction false} Repeating(sems: set<Sem>, n: nat, prog: Program, log: seq<Access>)
    requires Does(sems, prog, log)
    ensures Does(sems, Repeat(n, prog), RepeatLog(n, log))
  {
    if n > 0 {
      Repeating(sems, n - 1, prog, log);
      Then(sems, prog, log, Repeat(n - 1, prog), RepeatLog(n - 1, log));
    }
  }

  // ----- pages and files -----

  /** get_page, flush_file and flush_all. */
  const PAGE_ACCESS: Program := Guard(Cache, [Update(Cache)])

  /** create_file of the page file manager looks at the file system alone. */
  const FILE_NEW: Program := Guard(FdMap, [])

  const FILE_OPEN: Program := Guard(FdMap, [Update(FdMap)])

  const FILE_DESTROY: Program := Guard(FdMap, [Read(FdMap)])

  /** close_file flushes the file's pages between looking the file up and forgetting it. */
  const FILE_CLOSE: Program := Guard(FdMap, [Read(FdMap)] + PAGE_ACCESS + [Update(FdMap)])

  /** Creating a record file or an index file: create, open, close. */
  const FILE_CREATE: Program := FILE_NEW + FILE_OPEN + FILE_CLOSE

  function PageLog(h: set<Sem>): seq<Access> {
    [Access(Update(Cache), h + {Cache})]
  }

  function OpenLog(h: set<Sem>): seq<Access> {
    [Access(Update(FdMap), h + {FdMap})]
  }

  function DestroyLog(h: set<Sem>): seq<Access> {
    [Access(Read(FdMap), h + {FdMap})]
  }

  function CloseLog(h: set<Sem>): seq<Access> {
    [Access(Read(FdMap), h + {FdMap}), Access(Update(Cache), h + {FdMap, Cache}), Access(Update(FdMap), h + {FdMap})]
  }

  lemma PageDoes(h: set<Sem>)
    requires Above(Cache, h)
    ensures Does(h, PAGE_ACCESS, PageLog(h))
  {
    DoesOne(h + {Cache}, Update(Cache));
    Guarding(h, Cache, [Update(Cache)], PageLog(h));
  }

  /** What the file operations do, whatever handles or metadata are held. */
  lemma FilesDo(h: set<Sem>)
    requires Above(FdMap, h)
    ensures Does(h, FILE_NEW, []) && Does(h, FILE_OPEN, OpenLog(h)) && Does(h, FILE_DESTROY, DestroyLog(h))
    ensures Does(h, FILE_CLOSE, CloseLog(h)) && Does(h, FILE_CREATE, OpenLog(h) + CloseLog(h))
  {
    hide Does;
    var g := h + {FdMap};
    DoesNothing(g);
    DoesOne(g, Read(FdMap));
    DoesOne(g, Update(FdMap));
    PageDoes(g);
    Guarding(h, FdMap, [], []);
    Guarding(h, FdMap, [Update(FdMap)], OpenLog(h));
    Guarding(h, FdMap, [Read(FdMap)], DestroyLog(h));
    Then(g, [Read(FdMap)], [Access(Read(FdMap), g)], PAGE_ACCESS, PageLog(g));
    Then(g, [Read(FdMap)] + PAGE_ACCESS, [Access(Read(FdMap), g)] + PageLog(g), [Update(FdMap)],
      [Access(Update(FdMap), g)]);
    assert g + {Cache} == h + {FdMap, Cache};
    assert [Access(Read(FdMap), g)] + PageLog(g) + [Access(Update(FdMap), g)] == CloseLog(h);
    Guarding(h, FdMap, [Read(FdMap)] + PAGE_ACCESS + [Update(FdMap)], CloseLog(h));
    Then(h, FILE_NEW, [], FILE_OPEN, OpenLog(h));
    assert [] + OpenLog(h) == OpenLog(h);
    Then(h, FILE_NEW + FILE_OPEN, OpenLog(h), FILE_CLOSE, CloseLog(h));
  }

  // ----- the operations of the engine -----

  /** What a statement does one after the other: looking up a table, a file handle or an index handle, all without a
      semaphore, and fetching pages. */
  datatype Move = LookUpTable | LookUpFile | LookUpIndex | FetchPage

  datatype Operation =
    | Statement(moves: seq<Move>)
    | RegisterDb
    | CreateTable
    | DropTable(indexed: seq<bool>)
    | CreateIndex(records: seq<(nat, nat)>, last: nat)
    | DropIndex
    | OpenDb(closes: bool, oldFiles: nat, oldIndexes: nat, tables: seq<seq<bool>>)
    | CloseDb(files: nat, indexes: nat)

  function MoveTrace(m: Move): Program {
    match m
    case LookUpTable => [Read(Metadata)]
    case LookUpFile => [Read(FileHandles)]
    case LookUpIndex => [Read(IndexHandles)]
    case FetchPage => PAGE_ACCESS
  }

  function MovesTrace(moves: seq<Move>): Program {
    if moves == [] then [] else MoveTrace(moves[0]) + MovesTrace(moves[1..])
  }

  const DROP_INDEX: Program :=
    Guard(Metadata, [Read(Metadata)])
      + Guard(IndexHandles, [Read(IndexHandles)] + FILE_CLOSE + FILE_DESTROY + [Update(IndexHandles)])
      + Guard(Metadata, [Update(Metadata)])

  /** drop_table goes through the columns, whose metadata it reads, and drops their indexes. */
  function DropIndexesTrace(indexed: seq<bool>): Program {
    if indexed == [] then []
    else
      [Read(Metadata)] + (if indexed[0] then DROP_INDEX else []) + DropIndexesTrace(indexed[1..])
  }

  /** create_index fetches pages for each record before and after reading the column's offset. */
  function IndexingTrace(records: seq<(nat, nat)>): Program {
    if records == [] then []
    else
      Repeat(records[0].0, PAGE_ACCESS) + [Read(Metadata)] + Repeat(records[0].1, PAGE_ACCESS)
      + IndexingTrace(records[1..])
  }

  /** open_db goes through the tables and their columns and opens a file for each table and each index. */
  function OpenIndexesTrace(indexed: seq<bool>): Program {
    if indexed == [] then []
    else
      [Read(Metadata)] + (if indexed[0] then [Read(IndexHandles)] + FILE_OPEN + [Update(IndexHandles)] else [])
      + OpenIndexesTrace(indexed[1..])
  }

  function OpenTablesTrace(tables: seq<seq<bool>>): Program {
    if tables == [] then []
    else
      [Read(Metadata)] + FILE_OPEN + [Update(FileHandles)] + OpenIndexesTrace(tables[0])
      + OpenTablesTrace(tables[1..])
  }

  /** The closing of all files of one map of handles. */
  function CloseAllTrace(s: Sem, n: nat): Program {
    Guard(s, Repeat(n, [Read(s)] + FILE_CLOSE) + [Update(s)])
  }

  function CloseDbTrace(files: nat, indexes: nat): Program {
    Guard(Metadata, [Update(Metadata)]) + CloseAllTrace(FileHandles, files) + CloseAllTrace(IndexHandles, indexes)
      + Guard(Metadata, [Update(Metadata)])
  }

  /** The waits, posts and accesses of an operation that returns normally. */
  function Trace(op: Operation): Program {
    match op
    case Statement(moves) => MovesTrace(moves)
    case RegisterDb => Guard(Metadata, [Update(Metadata)])
    case CreateTable =>
      Guard(Metadata, [Read(Metadata)] + FILE_CREATE + [Update(Metadata)])
        + Guard(FileHandles, FILE_OPEN + [Update(FileHandles)])
    case DropTable(indexed) =>
      Guard(Metadata, [Read(Metadata)])
        + Guard(FileHandles, [Read(FileHandles)] + FILE_CLOSE + FILE_DESTROY + [Update(FileHandles)])
        + DropIndexesTrace(indexed) + Guard(Metadata, [Update(Metadata)])
    case CreateIndex(records, last) =>
      Guard(Metadata, [Read(Metadata)] + FILE_CREATE + FILE_OPEN) + Guard(FileHandles, [Read(FileHandles)])
        + IndexingTrace(records) + Repeat(last, PAGE_ACCESS) + Guard(IndexHandles, [Update(IndexHandles)])
        + Guard(Metadata, [Update(Metadata)])
    case DropIndex => DROP_INDEX
    case OpenDb(closes, f, i, tables) =>
      (if closes then Guard(Metadata, [Read(Metadata)]) + CloseDbTrace(f, i) else [])
        + Guard(Metadata, [Update(Metadata)]) + Guard(FileHandles, Guard(IndexHandles, OpenTablesTrace(tables)))
    case CloseDb(f, i) => CloseDbTrace(f, i)
  }

  // ----- the accesses that each operation makes -----

  function MoveAccesses(m: Move): seq<Access> {
    match m
    case LookUpTable => [Access(Read(Metadata), {})]
    case LookUpFile => [Access(Read(FileHandles), {})]
    case LookUpIndex => [Access(Read(IndexHandles), {})]
    case FetchPage => [Access(Update(Cache), {Cache})]
  }

  function MovesAccesses(moves: seq<Move>): seq<Access> {
    if moves == [] then [] else MoveAccesses(moves[0]) + MovesAccesses(moves[1..])
  }

  function DropIndexAccesses(): seq<Access> {
    [Access(Read(Metadata), {Metadata}), Access(Read(IndexHandles), {IndexHandles})] + CloseLog({IndexHandles})
      + DestroyLog({IndexHandles})
      + [Access(Update(IndexHandles), {IndexHandles}), Access(Update(Metadata), {Metadata})]
  }

  function DropIndexesAccesses(indexed: seq<bool>): seq<Access> {
    if indexed == [] then []
    else
      [Access(Read(Metadata), {})] + (if indexed[0] then DropIndexAccesses() else [])
      + DropIndexesAccesses(indexed[1..])
  }

  function IndexingAccesses(records: seq<(nat, nat)>): seq<Access> {
    if records == [] then []
    else
      RepeatLog(records[0].0, PageLog({})) + [Access(Read(Metadata), {})] + RepeatLog(records[0].1, PageLog({}))
      + IndexingAccesses(records[1..])
  }

  const BOTH: set<Sem> := {FileHandles, IndexHandles}

  function OpenIndexesAccesses(indexed: seq<bool>): seq<Access> {
    if indexed == [] then []
    else
      [Access(Read(Metadata), BOTH)]
      + (if indexed[0] then [Access(Read(IndexHandles), BOTH)] + OpenLog(BOTH) + [Access(Update(IndexHandles), BOTH)]
         else [])
      + OpenIndexesAccesses(indexed[1..])
  }

  function OpenTablesAccesses(tables: seq<seq<bool>>): seq<Access> {
    if tables == [] then []
    else
      [Access(Read(Metadata), BOTH)] + OpenLog(BOTH) + [Access(Update(FileHandles), BOTH)]
      + OpenIndexesAccesses(tables[0]) + OpenTablesAccesses(tables[1..])
  }

  function CloseAllAccesses(s: Sem, n: nat): seq<Access> {
    RepeatLog(n, [Access(Read(s), {s})] + CloseLog({s})) + [Access(Update(s), {s})]
  }

  function CloseDbAccesses(files: nat, indexes: nat): seq<Access> {
    [Access(Update(Metadata), {Metadata})] + CloseAllAccesses(FileHandles, files)
      + CloseAllAccesses(IndexHandles, indexes) + [Access(Update(Metadata), {Metadata})]
  }

  /** The accesses of each operation in order, with the semaphores it holds at them. */
  function Accesses(op: Operation): seq<Access> {
    match op
    case Statement(moves) => MovesAccesses(moves)
    case RegisterDb => [Access(Update(Metadata), {Metadata})]
    case CreateTable =>
      [Access(Read(Metadata), {Metadata})] + OpenLog({Metadata}) + CloseLog({Metadata})
        + [Access(Update(Metadata), {Metadata})] + OpenLog({FileHandles}) + [Access(Update(FileHandles), {FileHandles})]
    case DropTable(indexed) =>
      [Access(Read(Metadata), {Metadata}), Access(Read(FileHandles), {FileHandles})] + CloseLog({FileHandles})
        + DestroyLog({FileHandles}) + [Access(Update(FileHandles), {FileHandles})] + DropIndexesAccesses(indexed)
        + [Access(Update(Metadata), {Metadata})]
    case CreateIndex(records, last) =>
      [Access(Read(Metadata), {Metadata})] + OpenLog({Metadata}) + CloseLog({Metadata}) + OpenLog({Metadata})
        + [Access(Read(FileHandles), {FileHandles})] + IndexingAccesses(records) + RepeatLog(last, PageLog({}))
        + [Access(Update(IndexHandles), {IndexHandles}), Access(Update(Metadata), {Metadata})]
    case DropIndex => DropIndexAccesses()
    case OpenDb(closes, f, i, tables) =>
      (if closes then [Access(Read(Metadata), {Metadata})] + CloseDbAccesses(f, i) else [])
        + [Access(Update(Metadata), {Metadata})] + OpenTablesAccesses(tables)
    case CloseDb(f, i) => CloseDbAccesses(f, i)
  }

  lemma Then3(h: set<Sem>, a: Program, x: seq<Access>, b: Program, y: seq<Access>, c: Program, z: seq<Access>)
    requires Does(h, a, x) && Does(h, b, y) && Does(h, c, z)
    ensures Does(h, a + b + c, x + y + z)
  {
    Then(h, a, x, b, y);
    Then(h, a + b, x + y, c, z);
  }

  lemma Then4(h: set<Sem>, a: Program, x: seq<Access>, b: Program, y: seq<Access>, c: Program, z: seq<Access>,
              d: Program, w: seq<Access>)
    requires Does(h, a, x) && Does(h, b, y) && Does(h, c, z) && Does(h, d, w)
    ensures Does(h, a + b + c + d, x + y + z + w)
  {
    Then3(h, a, x, b, y, c, z);
    Then(h, a + b + c, x + y + z, d, w);
  }

  /** One access under the semaphore of what it accesses. */
  lemma GuardedOne(s: Sem, act: Action)
    requires act.Read? || act.Update?
    ensures Does({}, Guard(s, [act]), [Access(act, {s})])
  {
    assert {} + {s} == {s};
    DoesOne({s}, act);
    Guarding({}, s, [act], [Access(act, {s})]);
  }

  /** A body that is run under one semaphore alone. */
  lemma Under(s: Sem, body: Program, log: seq<Access>)
    requires Does({s}, body, log)
    ensures Does({}, Guard(s, body), log)
  {
    assert {} + {s} == {s};
    Guarding({}, s, body, log);
  }

  lemma {:induction false} MovesDo(moves: seq<Move>)
    ensures Does({}, MovesTrace(moves), MovesAccesses(moves))
  {
    hide Does;
    if moves == [] {
      DoesNothing({});
    } else {
      MovesDo(moves[1..]);
      PageDoes({});
      assert {} + {Cache} == {Cache};
      match moves[0] {
        case LookUpTable => DoesOne({}, Read(Metadata));
        case LookUpFile => DoesOne({}, Read(FileHandles));
        case LookUpIndex => DoesOne({}, Read(IndexHandles));
        case FetchPage =>
      }
      Then({}, MoveTrace(moves[0]), MoveAccesses(moves[0]), MovesTrace(moves[1..]), MovesAccesses(moves[1..]));
    }
  }

  /** Looking a file up in its map, closing and destroying it, and forgetting it. */
  lemma DropFileDoes(s: Sem)
    requires Rank(s) < Rank(FdMap)
    ensures Does({}, Guard(s, [Read(s)] + FILE_CLOSE + FILE_DESTROY + [Update(s)]),
              [Access(Read(s), {s})] + CloseLog({s}) + DestroyLog({s}) + [Access(Update(s), {s})])
  {
    hide Does;
    FilesDo({s});
    DoesOne({s}, Read(s));
    DoesOne({s}, Update(s));
    Then4({s}, [Read(s)], [Access(Read(s), {s})], FILE_CLOSE, CloseLog({s}), FILE_DESTROY, DestroyLog({s}), [Update(s)],
      [Access(Update(s), {s})]);
    Under(s, [Read(s)] + FILE_CLOSE + FILE_DESTROY + [Update(s)],
      [Access(Read(s), {s})] + CloseLog({s}) + DestroyLog({s}) + [Access(Update(s), {s})]);
  }

  lemma DropIndexDoes()
    ensures Does({}, DROP_INDEX, DropIndexAccesses())
  {
    hide Does;
    var s := IndexHandles;
    GuardedOne(Metadata, Read(Metadata));
    GuardedOne(Metadata, Update(Metadata));
    DropFileDoes(s);
    var log := [Access(Read(s), {s})] + CloseLog({s}) + DestroyLog({s}) + [Access(Update(s), {s})];
    Then3({}, Guard(Metadata, [Read(Metadata)]), [Access(Read(Metadata), {Metadata})],
      Guard(s, [Read(s)] + FILE_CLOSE + FILE_DESTROY + [Update(s)]), log,
      Guard(Metadata, [Update(Metadata)]), [Access(Update(Metadata), {Metadata})]);
    assert [Access(Read(Metadata), {Metadata})] + log + [Access(Update(Metadata), {Metadata})] == DropIndexAccesses();
  }

  lemma {:induction false} DropIndexesDo(indexed: seq<bool>)
    ensures Does({}, DropIndexesTrace(indexed), DropIndexesAccesses(indexed))
  {
    hide Does;
    DoesNothing({});
    if indexed != [] {
      DropIndexesDo(indexed[1..]);
      DropIndexDoes();
      DoesOne({}, Read(Metadata));
      Then3({}, [Read(Metadata)], [Access(Read(Metadata), {})], if indexed[0] then DROP_INDEX else [],
        if indexed[0] then DropIndexAccesses() else [], DropIndexesTrace(indexed[1..]),
        DropIndexesAccesses(indexed[1..]));
    }
  }

  lemma {:induction false} IndexingDoes(records: seq<(nat, nat)>)
    ensures Does({}, IndexingTrace(records), IndexingAccesses(records))
  {
    hide Does;
    if records == [] {
      DoesNothing({});
    } else {
      IndexingDoes(records[1..]);
      PageDoes({});
      DoesOne({}, Read(Metadata));
      Repeating({}, records[0].0, PAGE_ACCESS, PageLog({}));
      Repeating({}, records[0].1, PAGE_ACCESS, PageLog({}));
      Then4({}, Repeat(records[0].0, PAGE_ACCESS), RepeatLog(records[0].0, PageLog({})), [Read(Metadata)],
        [Access(Read(Metadata), {})], Repeat(records[0].1, PAGE_ACCESS), RepeatLog(records[0].1, PageLog({})),
        IndexingTrace(records[1..]), IndexingAccesses(records[1..]));
    }
  }

  lemma {:induction false} OpenIndexesDo(indexed: seq<bool>)
    ensures Does(BOTH, OpenIndexesTrace(indexed), OpenIndexesAccesses(indexed))
  {
    hide Does;
    DoesNothing(BOTH);
    if indexed != [] {
      OpenIndexesDo(indexed[1..]);
      FilesDo(BOTH);
      DoesOne(BOTH, Read(Metadata));
      DoesOne(BOTH, Read(IndexHandles));
      DoesOne(BOTH, Update(IndexHandles));
      Then3(BOTH, [Read(IndexHandles)], [Access(Read(IndexHandles), BOTH)], FILE_OPEN, OpenLog(BOTH),
        [Update(IndexHandles)], [Access(Update(IndexHandles), BOTH)]);
      Then3(BOTH, [Read(Metadata)], [Access(Read(Metadata), BOTH)],
        if indexed[0] then [Read(IndexHandles)] + FILE_OPEN + [Update(IndexHandles)] else [],
        if indexed[0] then [Access(Read(IndexHandles), BOTH)] + OpenLog(BOTH) + [Access(Update(IndexHandles), BOTH)]
          else [],
        OpenIndexesTrace(indexed[1..]), OpenIndexesAccesses(indexed[1..]));
    }
  }

  lemma {:induction false} OpenTablesDo(tables: seq<seq<bool>>)
    ensures Does(BOTH, OpenTablesTrace(tables), OpenTablesAccesses(tables))
  {
    hide Does;
    if tables == [] {
      DoesNothing(BOTH);
    } else {
      OpenTablesDo(tables[1..]);
      OpenIndexesDo(tables[0]);
      FilesDo(BOTH);
      DoesOne(BOTH, Read(Metadata));
      DoesOne(BOTH, Update(FileHandles));
      Then4(BOTH, [Read(Metadata)], [Access(Read(Metadata), BOTH)], FILE_OPEN, OpenLog(BOTH), [Update(FileHandles)],
        [Access(Update(FileHandles), BOTH)], OpenIndexesTrace(tables[0]), OpenIndexesAccesses(tables[0]));
      Then(BOTH, [Read(Metadata)] + FILE_OPEN + [Update(FileHandles)] + OpenIndexesTrace(tables[0]),
        [Access(Read(Metadata), BOTH)] + OpenLog(BOTH) + [Access(Update(FileHandles), BOTH)]
          + OpenIndexesAccesses(tables[0]),
        OpenTablesTrace(tables[1..]), OpenTablesAccesses(tables[1..]));
    }
  }

  lemma {:induction false} OpenAllDoes(tables: seq<seq<bool>>)
    ensures Does({}, Guard(FileHandles, Guard(IndexHandles, OpenTablesTrace(tables))), OpenTablesAccesses(tables))
  {
    hide Does;
    OpenTablesDo(tables);
    assert {FileHandles} + {IndexHandles} == BOTH;
    Guarding({FileHandles}, IndexHandles, OpenTablesTrace(tables), OpenTablesAccesses(tables));
    Under(FileHandles, Guard(IndexHandles, OpenTablesTrace(tables)), OpenTablesAccesses(tables));
  }

  lemma CloseAllDoes(s: Sem, n: nat)
    requires Rank(s) < Rank(FdMap)
    ensures Does({}, CloseAllTrace(s, n), CloseAllAccesses(s, n))
  {
    hide Does;
    FilesDo({s});
    DoesOne({s}, Read(s));
    DoesOne({s}, Update(s));
    var one := [Access(Read(s), {s})] + CloseLog({s});
    Then({s}, [Read(s)], [Access(Read(s), {s})], FILE_CLOSE, CloseLog({s}));
    Repeating({s}, n, [Read(s)] + FILE_CLOSE, one);
    Then({s}, Repeat(n, [Read(s)] + FILE_CLOSE), RepeatLog(n, one), [Update(s)], [Access(Update(s), {s})]);
    Under(s, Repeat(n, [Read(s)] + FILE_CLOSE) + [Update(s)], CloseAllAccesses(s, n));
  }

  lemma CloseDbDoes(f: nat, i: nat)
    ensures Does({}, CloseDbTrace(f, i), CloseDbAccesses(f, i))
  {
    hide Does;
    GuardedOne(Metadata, Update(Metadata));
    CloseAllDoes(FileHandles, f);
    CloseAllDoes(IndexHandles, i);
    var one := [Access(Update(Metadata), {Metadata})];
    Then4({}, Guard(Metadata, [Update(Metadata)]), one, CloseAllTrace(FileHandles, f), CloseAllAccesses(FileHandles, f),
      CloseAllTrace(IndexHandles, i), CloseAllAccesses(IndexHandles, i), Guard(Metadata, [Update(Metadata)]), one);
  }

  lemma CreateTableDoes()
    ensures Does({}, Trace(CreateTable), Accesses(CreateTable))
  {
    hide Does;
    var (m, f) := ({Metadata}, {FileHandles});
    FilesDo(m);
    FilesDo(f);
    DoesOne(m, Read(Metadata));
    DoesOne(m, Update(Metadata));
    DoesOne(f, Update(FileHandles));
    var log := [Access(Read(Metadata), m)] + (OpenLog(m) + CloseLog(m)) + [Access(Update(Metadata), m)];
    Then3(m, [Read(Metadata)], [Access(Read(Metadata), m)], FILE_CREATE, OpenLog(m) + CloseLog(m), [Update(Metadata)],
      [Access(Update(Metadata), m)]);
    Under(Metadata, [Read(Metadata)] + FILE_CREATE + [Update(Metadata)], log);
    Then(f, FILE_OPEN, OpenLog(f), [Update(FileHandles)], [Access(Update(FileHandles), f)]);
    Under(FileHandles, FILE_OPEN + [Update(FileHandles)], OpenLog(f) + [Access(Update(FileHandles), f)]);
    Then({}, Guard(Metadata, [Read(Metadata)] + FILE_CREATE + [Update(Metadata)]), log,
      Guard(FileHandles, FILE_OPEN + [Update(FileHandles)]), OpenLog(f) + [Access(Update(FileHandles), f)]);
    assert log + (OpenLog(f) + [Access(Update(FileHandles), f)]) == Accesses(CreateTable);
  }

  lemma DropTableDoes(indexed: seq<bool>)
    ensures Does({}, Trace(DropTable(indexed)), Accesses(DropTable(indexed)))
  {
    hide Does, DropIndexesAccesses;
    var s := FileHandles;
    GuardedOne(Metadata, Read(Metadata));
    GuardedOne(Metadata, Update(Metadata));
    DropFileDoes(s);
    DropIndexesDo(indexed);
    var read, update := [Access(Read(Metadata), {Metadata})], [Access(Update(Metadata), {Metadata})];
    var log := [Access(Read(s), {s})] + CloseLog({s}) + DestroyLog({s}) + [Access(Update(s), {s})];
    Then4({}, Guard(Metadata, [Read(Metadata)]), read,
      Guard(s, [Read(s)] + FILE_CLOSE + FILE_DESTROY + [Update(s)]), log,
      DropIndexesTrace(indexed), DropIndexesAccesses(indexed), Guard(Metadata, [Update(Metadata)]), update);
    assert read + log + DropIndexesAccesses(indexed) + update == Accesses(DropTable(indexed));
  }

  lemma CreateIndexDoes(records: seq<(nat, nat)>, last: nat)
    ensures Does({}, Trace(CreateIndex(records, last)), Accesses(CreateIndex(records, last)))
  {
    hide Does, IndexingAccesses, RepeatLog;
    var m := {Metadata};
    FilesDo(m);
    DoesOne(m, Read(Metadata));
    var first := [Access(Read(Metadata), m)] + (OpenLog(m) + CloseLog(m)) + OpenLog(m);
    Then3(m, [Read(Metadata)], [Access(Read(Metadata), m)], FILE_CREATE, OpenLog(m) + CloseLog(m), FILE_OPEN,
      OpenLog(m));
    var head := Guard(Metadata, [Read(Metadata)] + FILE_CREATE + FILE_OPEN);
    Under(Metadata, [Read(Metadata)] + FILE_CREATE + FILE_OPEN, first);
    GuardedOne(FileHandles, Read(FileHandles));
    GuardedOne(IndexHandles, Update(IndexHandles));
    GuardedOne(Metadata, Update(Metadata));
    IndexingDoes(records);
    PageDoes({});
    Repeating({}, last, PAGE_ACCESS, PageLog({}));
    var (r, u, w) := ([Access(Read(FileHandles), {FileHandles})], [Access(Update(IndexHandles), {IndexHandles})],
      [Access(Update(Metadata), {Metadata})]);
    var (x, y) := (IndexingAccesses(records), RepeatLog(last, PageLog({})));
    Then4({}, head, first, Guard(FileHandles, [Read(FileHandles)]), r, IndexingTrace(records), x,
      Repeat(last, PAGE_ACCESS), y);
    Then3({}, head + Guard(FileHandles, [Read(FileHandles)]) + IndexingTrace(records) + Repeat(last, PAGE_ACCESS),
      first + r + x + y, Guard(IndexHandles, [Update(IndexHandles)]), u, Guard(Metadata, [Update(Metadata)]), w);
    assert first + r + x + y + u + w == Accesses(CreateIndex(records, last));
  }

  lemma OpenDbDoes(closes: bool, f: nat, i: nat, tables: seq<seq<bool>>)
    ensures Does({}, Trace(OpenDb(closes, f, i, tables)), Accesses(OpenDb(closes, f, i, tables)))
  {
    hide Does, OpenTablesAccesses, CloseDbAccesses;
    var read := [Access(Read(Metadata), {Metadata})];
    GuardedOne(Metadata, Read(Metadata));
    GuardedOne(Metadata, Update(Metadata));
    CloseDbDoes(f, i);
    DoesNothing({});
    OpenAllDoes(tables);
    Then({}, Guard(Metadata, [Read(Metadata)]), read, CloseDbTrace(f, i), CloseDbAccesses(f, i));
    Then3({}, if closes then Guard(Metadata, [Read(Metadata)]) + CloseDbTrace(f, i) else [],
      if closes then read + CloseDbAccesses(f, i) else [],
      Guard(Metadata, [Update(Metadata)]), [Access(Update(Metadata), {Metadata})],
      Guard(FileHandles, Guard(IndexHandles, OpenTablesTrace(tables))), OpenTablesAccesses(tables));
  }

  /** Every operation waits in the order metadata, file handles, index handles, fd map, cache, releases all that it
      took, and makes the accesses listed under the semaphores listed. */
  lemma OperationDisciplined(op: Operation)
    ensures Disciplined({}, Trace(op)) && Log({}, Trace(op)) == Accesses(op)
  {
    assert Does({}, Trace(op), Accesses(op)) by {
      hide Does;
      match op {
        case Statement(moves) => MovesDo(moves);
        case RegisterDb => GuardedOne(Metadata, Update(Metadata));
        case CreateTable => CreateTableDoes();
        case DropTable(indexed) => DropTableDoes(indexed);
        case CreateIndex(records, last) => CreateIndexDoes(records, last);
        case DropIndex => DropIndexDoes();
        case OpenDb(closes, f, i, tables) => OpenDbDoes(closes, f, i, tables);
        case CloseDb(f, i) => CloseDbDoes(f, i);
      }
    }
  }

  // ----- which accesses are protected -----

  /** Every update is made with the semaphore held that protects what is updated. */
  ghost predicate UpdatesCovered(log: seq<Access>) {
    forall k :: 0 <= k < |log| && log[k].act.Update? ==> log[k].act.sem in log[k].held
  }

  /** And so is every read. */
  ghost predicate AllCovered(log: seq<Access>) {
    forall k :: 0 <= k < |log| ==> log[k].act.sem in log[k].held
  }

  lemma CoveredConcat(a: seq<Access>, b: seq<Access>)
    ensures UpdatesCovered(a + b) <==> UpdatesCovered(a) && UpdatesCovered(b)
    ensures AllCovered(a + b) <==> AllCovered(a) && AllCovered(b)
  {
    var c := a + b;
    forall k | 0 <= k < |b| ensures c[|a| + k] == b[k] { }
    forall k | 0 <= k < |a| ensures c[k] == a[k] { }
  }

  lemma {:induction false} RepeatCovered(n: nat, log: seq<Access>)
    requires AllCovered(log)
    ensures AllCovered(RepeatLog(n, log))
  {
    if n > 0 {
      RepeatCovered(n - 1, log);
      CoveredConcat(log, RepeatLog(n - 1, log));
    }
  }

  lemma AllThenUpdates(log: seq<Access>)
    requires AllCovered(log)
    ensures UpdatesCovered(log)
  {
  }

  lemma CloseDbCovered(f: nat, i: nat)
    ensures AllCovered(CloseDbAccesses(f, i))
  {
    hide RepeatLog;
    var one := [Access(Update(Metadata), {Metadata})];
    var (a, b) := (CloseAllAccesses(FileHandles, f), CloseAllAccesses(IndexHandles, i));
    RepeatCovered(f, [Access(Read(FileHandles), {FileHandles})] + CloseLog({FileHandles}));
    RepeatCovered(i, [Access(Read(IndexHandles), {IndexHandles})] + CloseLog({IndexHandles}));
    CoveredConcat(one, a);
    CoveredConcat(one + a, b);
    CoveredConcat(one + a + b, one);
  }

  lemma {:induction false} MovesCovered(moves: seq<Move>)
    ensures UpdatesCovered(MovesAccesses(moves))
    ensures AllCovered(MovesAccesses(moves)) <==> forall k :: 0 <= k < |moves| ==> moves[k] == FetchPage
  {
    if moves != [] {
      MovesCovered(moves[1..]);
      var (a, b) := (MoveAccesses(moves[0]), MovesAccesses(moves[1..]));
      CoveredConcat(a, b);
      assert AllCovered(a) <==> moves[0] == FetchPage by {
        if moves[0] != FetchPage { assert a[0].act.sem !in a[0].held; }
      }
      forall k | 0 <= k < |moves| - 1 ensures moves[k + 1] == moves[1..][k] { }
    }
  }

  /** A log with a read in it at which the semaphore is not held is not covered. */
  lemma BareRead(a: seq<Access>, e: Access, b: seq<Access>)
    requires e.act.sem !in e.held && e.act.Read?
    ensures !AllCovered(a + [e] + b)
    ensures UpdatesCovered(a + [e] + b) <==> UpdatesCovered(a) && UpdatesCovered(b)
  {
    assert (a + [e] + b)[|a|] == e;
    CoveredConcat(a, [e]);
    CoveredConcat(a + [e], b);
  }

  lemma DropIndexCovered()
    ensures UpdatesCovered(DropIndexAccesses())
  {
  }

  lemma {:induction false} DropIndexesCovered(indexed: seq<bool>)
    ensures UpdatesCovered(DropIndexesAccesses(indexed))
    ensures AllCovered(DropIndexesAccesses(indexed)) <==> indexed == []
  {
    hide DropIndexAccesses;
    if indexed != [] {
      DropIndexesCovered(indexed[1..]);
      DropIndexCovered();
      var x := if indexed[0] then DropIndexAccesses() else [];
      var e := Access(Read(Metadata), {});
      assert UpdatesCovered([]) && UpdatesCovered(x);
      CoveredConcat(x, DropIndexesAccesses(indexed[1..]));
      BareRead([], e, x + DropIndexesAccesses(indexed[1..]));
      assert DropIndexesAccesses(indexed) == [] + [e] + (x + DropIndexesAccesses(indexed[1..]));
    }
  }

  lemma {:induction false} IndexingCovered(records: seq<(nat, nat)>)
    ensures UpdatesCovered(IndexingAccesses(records))
    ensures AllCovered(IndexingAccesses(records)) <==> records == []
  {
    hide RepeatLog;
    if records != [] {
      IndexingCovered(records[1..]);
      RepeatCovered(records[0].0, PageLog({}));
      RepeatCovered(records[0].1, PageLog({}));
      var (a, b) := (RepeatLog(records[0].0, PageLog({})), RepeatLog(records[0].1, PageLog({})));
      var e := Access(Read(Metadata), {});
      AllThenUpdates(a);
      AllThenUpdates(b);
      CoveredConcat(b, IndexingAccesses(records[1..]));
      BareRead(a, e, b + IndexingAccesses(records[1..]));
      assert IndexingAccesses(records) == a + [e] + (b + IndexingAccesses(records[1..]));
    }
  }

  lemma {:induction false} OpenIndexesCovered(indexed: seq<bool>)
    ensures UpdatesCovered(OpenIndexesAccesses(indexed))
  {
    if indexed != [] {
      OpenIndexesCovered(indexed[1..]);
      var x := if indexed[0]
        then [Access(Read(IndexHandles), BOTH)] + OpenLog(BOTH) + [Access(Update(IndexHandles), BOTH)] else [];
      CoveredConcat([Access(Read(Metadata), BOTH)], x);
      CoveredConcat([Access(Read(Metadata), BOTH)] + x, OpenIndexesAccesses(indexed[1..]));
    }
  }

  lemma {:induction false} OpenTablesCovered(tables: seq<seq<bool>>)
    ensures UpdatesCovered(OpenTablesAccesses(tables))
    ensures AllCovered(OpenTablesAccesses(tables)) <==> tables == []
  {
    if tables != [] {
      OpenTablesCovered(tables[1..]);
      OpenIndexesCovered(tables[0]);
      var e := Access(Read(Metadata), BOTH);
      var x := OpenLog(BOTH) + [Access(Update(FileHandles), BOTH)];
      CoveredConcat(x, OpenIndexesAccesses(tables[0]));
      CoveredConcat(x + OpenIndexesAccesses(tables[0]), OpenTablesAccesses(tables[1..]));
      BareRead([], e, x + OpenIndexesAccesses(tables[0]) + OpenTablesAccesses(tables[1..]));
      assert OpenTablesAccesses(tables) ==
             [] + [e] + (x + OpenIndexesAccesses(tables[0]) + OpenTablesAccesses(tables[1..]));
    }
  }

  /** The operation looks nothing up without the semaphore: a statement does so unless it only fetches pages, drop_table
      for the columns, create_index for each record, and open_db for each table. */
  predicate Careful(op: Operation) {
    match op
    case Statement(moves) => forall k :: 0 <= k < |moves| ==> moves[k] == FetchPage
    case DropTable(indexed) => indexed == []
    case CreateIndex(records, _) => records == []
    case OpenDb(_, _, _, tables) => tables == []
    case _ => true
  }

  lemma DropTableCovered(indexed: seq<bool>)
    ensures UpdatesCovered(Accesses(DropTable(indexed)))
    ensures AllCovered(Accesses(DropTable(indexed))) <==> indexed == []
  {
    hide DropIndexesAccesses;
    var (a, b) := ([Access(Read(Metadata), {Metadata}), Access(Read(FileHandles), {FileHandles})]
      + CloseLog({FileHandles}) + DestroyLog({FileHandles}) + [Access(Update(FileHandles), {FileHandles})],
      [Access(Update(Metadata), {Metadata})]);
    DropIndexesCovered(indexed);
    CoveredConcat(a, DropIndexesAccesses(indexed));
    CoveredConcat(a + DropIndexesAccesses(indexed), b);
  }

  lemma CreateIndexCovered(records: seq<(nat, nat)>, last: nat)
    ensures UpdatesCovered(Accesses(CreateIndex(records, last)))
    ensures AllCovered(Accesses(CreateIndex(records, last))) <==> records == []
  {
    hide RepeatLog, IndexingAccesses;
    var (m, y) := ({Metadata}, RepeatLog(last, PageLog({})));
    var a := [Access(Read(Metadata), m)] + OpenLog(m) + CloseLog(m) + OpenLog(m)
      + [Access(Read(FileHandles), {FileHandles})];
    var b := [Access(Update(IndexHandles), {IndexHandles}), Access(Update(Metadata), {Metadata})];
    IndexingCovered(records);
    RepeatCovered(last, PageLog({}));
    CoveredConcat(a, IndexingAccesses(records));
    CoveredConcat(a + IndexingAccesses(records), y);
    CoveredConcat(a + IndexingAccesses(records) + y, b);
    AllThenUpdates(y);
  }

  lemma OpenDbCovered(closes: bool, f: nat, i: nat, tables: seq<seq<bool>>)
    ensures UpdatesCovered(Accesses(OpenDb(closes, f, i, tables)))
    ensures AllCovered(Accesses(OpenDb(closes, f, i, tables))) <==> tables == []
  {
    hide OpenTablesAccesses, CloseDbAccesses;
    var x := if closes then [Access(Read(Metadata), {Metadata})] + CloseDbAccesses(f, i) else [];
    CloseDbCovered(f, i);
    CoveredConcat([Access(Read(Metadata), {Metadata})], CloseDbAccesses(f, i));
    OpenTablesCovered(tables);
    CoveredConcat(x, [Access(Update(Metadata), {Metadata})]);
    CoveredConcat(x + [Access(Update(Metadata), {Metadata})], OpenTablesAccesses(tables));
    AllThenUpdates(x);
  }

  lemma CreateTableCovered()
    ensures AllCovered(Accesses(CreateTable)) && AllCovered(Accesses(RegisterDb)) && AllCovered(Accesses(DropIndex))
  {
  }

  /** All updates are protected, in every operation. All reads are, exactly in the operations that look nothing up
      without the semaphore. */
  lemma OperationCovered(op: Operation)
    ensures UpdatesCovered(Accesses(op))
    ensures AllCovered(Accesses(op)) <==> Careful(op)
  {
    hide UpdatesCovered, AllCovered;
    match op {
      case Statement(moves) => MovesCovered(moves);
      case DropTable(indexed) => DropTableCovered(indexed);
      case CreateIndex(records, last) => CreateIndexCovered(records, last);
      case OpenDb(closes, f, i, tables) => OpenDbCovered(closes, f, i, tables);
      case CloseDb(f, i) =>
        CloseDbCovered(f, i);
        AllThenUpdates(CloseDbAccesses(f, i));
      case _ =>
        CreateTableCovered();
        AllThenUpdates(Accesses(op));
    }
  }

  /** What a thread does: any operations one after the other. */
  function Session(ops: seq<Operation>): Program {
    if ops == [] then [] else Trace(ops[0]) + Session(ops[1..])
  }

  lemma {:induction false} SessionDisciplined(ops: seq<Operation>)
    ensures Disciplined({}, Session(ops)) && UpdatesCovered(Log({}, Session(ops)))
    ensures AllCovered(Log({}, Session(ops))) <==> forall k :: 0 <= k < |ops| ==> Careful(ops[k])
  {
    if ops != [] {
      OperationDisciplined(ops[0]);
      OperationCovered(ops[0]);
      SessionDisciplined(ops[1..]);
      RunConcat({}, Trace(ops[0]), Session(ops[1..]));
      LogConcat({}, Trace(ops[0]), Session(ops[1..]));
      CoveredConcat(Accesses(ops[0]), Log({}, Session(ops[1..])));
      forall k | 0 <= k < |ops| - 1 ensures ops[k + 1] == ops[1..][k] { }
    }
  }

  // ----- threads on shared semaphores -----

  datatype Thread = Thread(rest: Program, held: set<Sem>)

  /** The threads and the value of each semaphore. */
  datatype State = State(threads: seq<Thread>, value: map<Sem, nat>)

  predicate Unfinished(st: State, i: nat) {
    i < |st.threads| && st.threads[i].rest != []
  }

  /** A wait goes on only when the semaphore is positive. */
  predicate CanStep(st: State, i: nat) {
    Unfinished(st, i) && (st.threads[i].rest[0].Wait? ==>
      st.threads[i].rest[0].sem in st.value && st.value[st.threads[i].rest[0].sem] > 0)
  }

  function Step(st: State, i: nat): State
    requires CanStep(st, i)
  {
    var t := st.threads[i];
    match t.rest[0]
    case Wait(s) => State(st.threads[i := Thread(t.rest[1..], t.held + {s})], st.value[s := st.value[s] - 1])
    case Post(s) =>
      State(st.threads[i := Thread(t.rest[1..], t.held - {s})],
        st.value[s := (if s in st.value then st.value[s] else 0) + 1])
    case _ => State(st.threads[i := Thread(t.rest[1..], t.held)], st.value)
  }

  /** No semaphore is held twice, one held has value 0 and one not held has value 1, and every thread goes on
      in order and updates only what it has the semaphore of. */
  ghost predicate Inv(st: State) {
    && (forall s :: s in st.value && st.value[s] <= 1)
    && (forall s, i :: 0 <= i < |st.threads| && s in st.threads[i].held ==> st.value[s] == 0)
    && (forall s :: st.value[s] == 0 ==> Owned(st, s))
    && (forall i, j :: 0 <= i < j < |st.threads| ==> st.threads[i].held !! st.threads[j].held)
    && (forall i :: 0 <= i < |st.threads| ==> InOrder(st.threads[i]))
  }

  ghost predicate Owned(st: State, s: Sem) {
    exists i :: 0 <= i < |st.threads| && s in st.threads[i].held
  }

  ghost predicate InOrder(t: Thread) {
    Run(t.held, t.rest) == Held({}) && UpdatesCovered(Log(t.held, t.rest))
  }

  function Start(sessions: seq<seq<Operation>>): State {
    State(seq(|sessions|, i requires 0 <= i < |sessions| => Thread(Session(sessions[i]), {})),
          map[Metadata := 1, FileHandles := 1, IndexHandles := 1, FdMap := 1, Cache := 1])
  }

  lemma StartInv(sessions: seq<seq<Operation>>)
    ensures Inv(Start(sessions))
  {
    var st := Start(sessions);
    forall s ensures s in st.value && st.value[s] == 1 {
      match s { case Metadata => case FileHandles => case IndexHandles => case FdMap => case Cache => }
    }
    forall i | 0 <= i < |sessions| ensures InOrder(st.threads[i]) { SessionDisciplined(sessions[i]); }
  }

  lemma StepInv(st: State, i: nat)
    requires Inv(st) && CanStep(st, i)
    ensures Inv(Step(st, i))
  {
    var st', t := Step(st, i), st.threads[i];
    assert InOrder(t);
    var t' := st'.threads[i];
    NextInOrder(t, t');
    match t.rest[0] {
      case Wait(s) =>
        assert s in t'.held;
        forall x | st'.value[x] == 0 ensures Owned(st', x) {
          if x != s {
            assert Owned(st, x);
            var k :| 0 <= k < |st.threads| && x in st.threads[k].held;
            assert x in st'.threads[k].held;
          }
        }
      case Post(s) =>
        assert s in t.held;
        forall x | st'.value[x] == 0 ensures Owned(st', x) {
          assert Owned(st, x);
          var k :| 0 <= k < |st.threads| && x in st.threads[k].held;
          assert x in st'.threads[k].held;
        }
      case _ =>
        forall x | st'.value[x] == 0 ensures Owned(st', x) {
          assert Owned(st, x);
          var k :| 0 <= k < |st.threads| && x in st.threads[k].held;
          assert x in st'.threads[k].held;
        }
    }
  }

  /** t' is t after its next action. */
  ghost predicate Advanced(t: Thread, t': Thread) {
    && t.rest != [] && t'.rest == t.rest[1..]
    && t'.held == match t.rest[0]
       case Wait(s) => t.held + {s}
       case Post(s) => t.held - {s}
       case _ => t.held
  }

  lemma NextInOrder(t: Thread, t': Thread)
    requires InOrder(t) && Advanced(t, t')
    ensures InOrder(t')
  {
    NextLog(t, t');
  }

  lemma NextLog(t: Thread, t': Thread)
    requires Advanced(t, t')
    ensures var (x, y) := (Log(t.held, t.rest), Log(t'.held, t'.rest));
            if t.rest[0].Wait? || t.rest[0].Post? then x == y else x == [Access(t.rest[0], t.held)] + y
    ensures UpdatesCovered(Log(t.held, t.rest)) ==> UpdatesCovered(Log(t'.held, t'.rest))
    ensures AllCovered(Log(t.held, t.rest)) ==> AllCovered(Log(t'.held, t'.rest))
  {
    var y := Log(t'.held, t'.rest);
    if t.rest[0].Read? || t.rest[0].Update? { CoveredConcat([Access(t.rest[0], t.held)], y); }
  }

  /** A blocked thread waits for a semaphore above all that it holds, so following "waits for a semaphore held by"
      climbs the order and ends at a thread that can go on. */
  lemma {:induction false} SomeoneCanStep(st: State, i: nat) returns (k: nat)
    requires Inv(st) && Unfinished(st, i)
    ensures CanStep(st, k)
    decreases if st.threads[i].rest[0].Wait? then 1 + Rank(Cache) - Rank(st.threads[i].rest[0].sem) else 0
  {
    if CanStep(st, i) {
      k := i;
    } else {
      var s := st.threads[i].rest[0].sem;
      assert Owned(st, s);
      var j :| 0 <= j < |st.threads| && s in st.threads[j].held;
      HolderGoesOn(st.threads[j], s);
      k := SomeoneCanStep(st, j);
    }
  }

  lemma HolderGoesOn(t: Thread, s: Sem)
    requires InOrder(t) && s in t.held
    ensures t.rest != [] && (t.rest[0].Wait? ==> Rank(s) < Rank(t.rest[0].sem) <= Rank(Cache))
  {
  }

  /** The states that some schedule leads to. */
  ghost predicate Reachable(from: State, st: State, schedule: seq<nat>)
    decreases |schedule|
  {
    if schedule == [] then st == from
    else CanStep(from, schedule[0]) && Reachable(Step(from, schedule[0]), st, schedule[1..])
  }

  lemma {:induction false} ReachableInv(from: State, st: State, schedule: seq<nat>)
    requires Inv(from) && Reachable(from, st, schedule)
    ensures Inv(st) && |st.threads| == |from.threads|
    decreases |schedule|
  {
    if schedule != [] {
      StepInv(from, schedule[0]);
      ReachableInv(Step(from, schedule[0]), st, schedule[1..]);
    }
  }

  /** Deadlock freedom: whatever the threads do and however they are scheduled, as long as one is unfinished,
      one can go on. */
  lemma NoDeadlock(sessions: seq<seq<Operation>>, st: State, schedule: seq<nat>, i: nat) returns (k: nat)
    requires Reachable(Start(sessions), st, schedule) && Unfinished(st, i)
    ensures CanStep(st, k)
  {
    StartInv(sessions);
    ReachableInv(Start(sessions), st, schedule);
    k := SomeoneCanStep(st, i);
  }

  // ----- what the semaphores are for -----

  /** Thread i is about to make the access. */
  ghost predicate At(st: State, i: nat, act: Action) {
    Unfinished(st, i) && st.threads[i].rest[0] == act
  }

  /** All reads of the thread that are still to come are protected. */
  ghost predicate CarefulFrom(st: State, i: nat) {
    i < |st.threads| && AllCovered(Log(st.threads[i].held, st.threads[i].rest))
  }

  lemma {:induction false} ReachableCareful(from: State, st: State, schedule: seq<nat>, i: nat)
    requires Inv(from) && Reachable(from, st, schedule) && CarefulFrom(from, i)
    ensures CarefulFrom(st, i)
    decreases |schedule|
  {
    if schedule != [] {
      var k, next := schedule[0], Step(from, schedule[0]);
      StepInv(from, k);
      if k == i { NextLog(from.threads[i], next.threads[i]); }
      ReachableCareful(next, st, schedule[1..], i);
    }
  }

  lemma HoldsAtUpdate(st: State, i: nat, s: Sem)
    requires Inv(st) && (At(st, i, Update(s)) || (At(st, i, Read(s)) && CarefulFrom(st, i)))
    ensures s in st.threads[i].held
  {
    var t := st.threads[i];
    assert InOrder(t);
    var log := Log(t.held, t.rest);
    assert log[0] == Access(t.rest[0], t.held);
  }

  /** Mutual exclusion: while one thread is about to update one of the structures, no other is about to update it; nor
      to read it, if its operations look nothing up without the semaphore. */
  lemma {:induction false} MutualExclusion(sessions: seq<seq<Operation>>, st: State, schedule: seq<nat>, i: nat,
                                           j: nat, s: Sem)
    requires Reachable(Start(sessions), st, schedule) && i != j && At(st, i, Update(s))
    ensures !At(st, j, Update(s))
    ensures At(st, j, Read(s)) ==> j < |sessions| && exists k :: 0 <= k < |sessions[j]| && !Careful(sessions[j][k])
  {
    var start := Start(sessions);
    StartInv(sessions);
    ReachableInv(start, st, schedule);
    HoldsAtUpdate(st, i, s);
    if At(st, j, Update(s)) { HoldsAtUpdate(st, j, s); }
    if At(st, j, Read(s)) {
      SessionDisciplined(sessions[j]);
      if forall k :: 0 <= k < |sessions[j]| ==> Careful(sessions[j][k]) {
        assert CarefulFrom(start, j);
        ReachableCareful(start, st, schedule, j);
        HoldsAtUpdate(st, j, s);
      }
    }
  }

  /** Otherwise it can come to that: a statement may look a table up just when another thread changes the metadata. */
  lemma LookUpRace(moves: seq<Move>)
    ensures var sessions := [[RegisterDb], [Statement([LookUpTable] + moves)]];
            CanStep(Start(sessions), 0)
            && At(Step(Start(sessions), 0), 0, Update(Metadata)) && At(Step(Start(sessions), 0), 1, Read(Metadata))
  {
    var ops := [Statement([LookUpTable] + moves)];
    var start := Start([[RegisterDb], ops]);
    assert Session([RegisterDb]) == Guard(Metadata, [Update(Metadata)]) + Session([RegisterDb][1..]);
    assert MovesTrace([LookUpTable] + moves) == [Read(Metadata)] + MovesTrace(([LookUpTable] + moves)[1..]);
    assert Session(ops) == MovesTrace([LookUpTable] + moves) + Session(ops[1..]);
    assert start.threads[0].rest[..2] == [Wait(Metadata), Update(Metadata)];
    assert start.threads[1].rest[0] == Read(Metadata);
  }

  function Remaining(threads: seq<Thread>): nat {
    if threads == [] then 0 else |threads[0].rest| + Remaining(threads[1..])
  }

  lemma {:induction false} RemainingStep(threads: seq<Thread>, i: nat, t: Thread)
    requires i < |threads| && |t.rest| == |threads[i].rest| - 1
    ensures Remaining(threads[i := t]) == Remaining(threads) - 1
  {
    if i > 0 {
      assert threads[i := t][1..] == threads[1..][i - 1 := t];
      RemainingStep(threads[1..], i - 1, t);
    } else {
      assert threads[i := t][1..] == threads[1..];
    }
  }

  lemma {:induction false} FirstUnfinished(st: State, n: nat) returns (i: nat)
    requires n <= |st.threads| && Remaining(st.threads[n..]) > 0
    ensures Unfinished(st, i)
    decreases |st.threads| - n
  {
    if st.threads[n].rest != [] {
      i := n;
    } else {
      assert st.threads[n..][1..] == st.threads[n + 1..];
      i := FirstUnfinished(st, n + 1);
    }
  }

  lemma {:induction false} NoneUnfinished(threads: seq<Thread>, i: nat)
    requires Remaining(threads) == 0 && i < |threads|
    ensures threads[i].rest == []
  {
    if i > 0 { NoneUnfinished(threads[1..], i - 1); }
  }

  /** From any reachable state the threads can all finish, and then every semaphore is free again. */
  lemma {:induction false} CanFinish(st: State) returns (schedule: seq<nat>, done: State)
    requires Inv(st)
    ensures Reachable(st, done, schedule) && |schedule| == Remaining(st.threads)
    ensures forall i :: 0 <= i < |done.threads| ==> done.threads[i] == Thread([], {})
    ensures forall s :: s in done.value && done.value[s] == 1
    decreases Remaining(st.threads)
  {
    if Remaining(st.threads) == 0 {
      schedule, done := [], st;
      forall i | 0 <= i < |st.threads| ensures st.threads[i] == Thread([], {}) {
        NoneUnfinished(st.threads, i);
        assert InOrder(st.threads[i]);
      }
      forall s ensures st.value[s] == 1 { assert !Owned(st, s); }
    } else {
      assert st.threads[0..] == st.threads;
      var i := FirstUnfinished(st, 0);
      var k := SomeoneCanStep(st, i);
      StepInv(st, k);
      RemainingStep(st.threads, k, Step(st, k).threads[k]);
      var rest;
      rest, done := CanFinish(Step(st, k));
      schedule := [k] + rest;
      assert schedule[1..] == rest;
    }
  }
}
