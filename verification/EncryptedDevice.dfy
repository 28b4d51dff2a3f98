/**
 * Enumerating the rows of a table and the columns of an object from the host, while other hosts go on
 * (EncryptedDevice.cpp).
 */
module EncryptedDevice {
  import opened Common
  import opened Values
  import opened Methods
  import opened State
  import opened HostSession
  import opened RemoteTable
  import opened HostTables
  import opened RemoteRuns
  import opened Template
  import Credentials
  import HostCredentials
  import HostRequests
  import HostKeys
  import RemoteCalls
  import M = MockDevice

  /** What a module says of a table: the row of a single-row table, and how many columns its objects have. */
  datatype TableDesc = TableDesc(singleRow: Option<UID>, columnCount: uint32)

  //
  // Other hosts
  //

  /** What other hosts do each time the enumeration is suspended, behind its first call, its second, and so on. */
  type Others = nat -> seq<Operation>

  /** The server, and the messages sent, after k calls that change nothing, each followed by what the others do. */
  function Meanwhile(s: Server, envs: Envs, sent: nat, others: Others, k: nat): (Server, nat) {
    if k == 0 then (s, sent)
    else
      var (s', n) := Meanwhile(s, envs, sent, others, k - 1);
      (PlainRun(s', envs, n + 1, others(k - 1)).1, n + 1 + MessagesOf(others(k - 1)))
  }

  function ServerAt(s: Server, envs: Envs, sent: nat, others: Others, k: nat): Server {
    Meanwhile(s, envs, sent, others, k).0
  }

  /** Their frames stay below 2^32 bytes, too. */
  ghost predicate OthersFit(s: Server, envs: Envs, sent: nat, others: Others) {
    forall k: nat ::
      RunFits(ServerAt(s, envs, sent, others, k), envs, Meanwhile(s, envs, sent, others, k).1 + 1, others(k))
  }

  /** Another host does not end this one's session, and no two hosts have the same number. */
  predicate Bystander(op: Operation, id: M.SessionId) {
    (op.EndSession? ==> op.id != id) && (op.StartSession? ==> op.hsn != id.hsn)
  }

  predicate AllBystanders(ops: seq<Operation>, id: M.SessionId) {
    forall i :: 0 <= i < |ops| ==> Bystander(ops[i], id)
  }

  /** The session is still open on the same provider, and the rows are what they were. */
  predicate StillThere(s: Server, s': Server, id: M.SessionId) {
    && s'.spIds == s.spIds && s'.lists == s.lists
    && (id in s.sessions <==> id in s'.sessions)
    && (id in s.sessions ==> s'.sessions[id] == s.sessions[id])
  }

  lemma BystanderStep(s: Server, random: nat -> seq<byte>, op: Operation, id: M.SessionId)
    requires Bystander(op, id)
    ensures StillThere(s, PlainStep(s, random, op).1, id)
  {
    hide PlainGet, PlainSet, PlainNext, Leaves, HostCredentials.PlainAuthenticate, HostKeys.PlainGenKey,
         HostKeys.PlainActivate, HostKeys.PlainRevert;
  }

  lemma {:induction false} BystandersRun(s: Server, envs: Envs, sent: nat, ops: seq<Operation>, id: M.SessionId)
    requires AllBystanders(ops, id)
    ensures StillThere(s, PlainRun(s, envs, sent, ops).1, id)
    decreases |ops|
  {
    hide PlainStep, Messages, Bystander;
    if ops != [] {
      BystanderStep(s, envs(sent).random, ops[0], id);
      BystandersRun(PlainStep(s, envs(sent).random, ops[0]).1, envs, sent + Messages(ops[0]), ops[1..], id);
    }
  }

  //
  // Rows
  //

  /** What the enumeration of a table comes to, on the plain server. */
  function PlainRows(s: Server, id: M.SessionId, table: UID, desc: Option<TableDesc>): Result<seq<UID>> {
    if desc.None? then Err(InvalidArgument)
    else if desc.value.singleRow.Some? then Ok([desc.value.singleRow.value])
    else if !Reaches(s, id, table) then Err(DeviceFailure)
    else if table !in s.lists[s.sessions[id]] then Err(InvocationFailure(INVALID_PARAMETER))
    else Ok(Shown(s.lists[s.sessions[id]][table]))
  }

  /** How often the other hosts get a turn: once behind each row. */
  function Turns(s: Server, id: M.SessionId, table: UID, desc: Option<TableDesc>): nat {
    if desc.None? || desc.value.singleRow.Some? then 0 else |ListOf(s, id, table)|
  }

  function ListOf(s: Server, id: M.SessionId, table: UID): seq<UID> {
    if Reaches(s, id, table) && table in s.lists[s.sessions[id]] then s.lists[s.sessions[id]][table] else []
  }

  /** The answer to one request behind the k-th row. */
  lemma NextOnServer(s: Server, random: nat -> seq<byte>, id: M.SessionId, table: UID, k: nat)
    requires var rows := ListOf(s, id, table); Distinct(rows) && k <= |rows|
    ensures var rows := ListOf(s, id, table);
      var op := Operation.Next(id, table, LastOf(rows, k), 1);
      PlainStep(s, random, op) ==
      (RowsAnswer(if !Reaches(s, id, table) then Err(DeviceFailure)
                  else if table !in s.lists[s.sessions[id]] then Err(InvocationFailure(INVALID_PARAMETER))
                  else Ok(rows[k..Min(k + 1, |rows|)])), s)
  {
    hide Page;
    PageIsSlice(ListOf(s, id, table), k, 1);
  }

  function FirstRow(rows: Result<seq<UID>>): Result<Option<UID>> {
    if rows.Err? then Err(rows.error) else Ok(if rows.value == [] then None else Some(rows.value[0]))
  }

  /** The host's request for one row can be made, and is answered as the server answers it. */
  lemma NextAgrees(b: Bench, s: Server, envs: Envs, id: M.SessionId, table: UID, row: Option<UID>)
    requires var op := Operation.Next(id, table, row, 1); Bears(b, s, b.Count()) && Fits(s, op)
    ensures var op := Operation.Next(id, table, row, 1);
      var (uid, d) := HostNextOne(b.device, Session(id, envs(b.Count())), table, row);
      var plain := PlainStep(s, envs(b.Count()).random, op).0;
      && RemoteCalls.Ready(b.device, id, CallToValue(NextRequest(table, row, 1)), true, envs(b.Count()))
      && plain.RowsAnswer? && uid == FirstRow(plain.rows)
      && Bears(After(b, op, d), s, b.Count() + 1)
  {
    hide Bears, Fits, RemoteCalls.Ready, HostNext, PlainNext, After, CallToValue, NextRequest;
    var op := Operation.Next(id, table, row, 1);
    RequestIsReady(b, s, envs, op);
    StepKeepsBench(b, s, envs, op);
  }

  lemma StillThereReflexive(s: Server, id: M.SessionId)
    ensures StillThere(s, s, id)
  {
  }

  /** A description that makes the host enumerate the table. */
  predicate Enumerates(desc: Option<TableDesc>) {
    desc.Some? && desc.value.singleRow.None?
  }

  /** The reply with all rows stays below 2^32 bytes. */
  predicate ListsFit(s: Server, id: M.SessionId, table: UID) {
    id in s.sessions ==> NextFits(s.lists[s.sessions[id]], table)
  }

  predicate RowsFit(s: Server, id: M.SessionId, table: UID) {
    ListsFit(s, id, table) && Distinct(ListOf(s, id, table))
  }

  /** A table lists no row twice. */
  lemma RowsAreDistinct(b: Bench, s: Server, id: M.SessionId, table: UID)
    requires Bears(b, s, b.Count()) && ListsFit(s, id, table)
    ensures RowsFit(s, id, table)
  {
    hide Represents, Credentials.Filed, AllTyped, RemoteCalls.Settled, NextFits;
    if Reaches(s, id, table) && table in s.lists[s.sessions[id]] {
      var p := s.sessions[id];
      assert ValidTables(b.device.providers[p].tables);
      assert ValidTable(b.device.providers[p].tables[table]);
    }
  }

  lemma SameRows(s: Server, s': Server, id: M.SessionId, table: UID)
    requires StillThere(s, s', id) && RowsFit(s, id, table)
    ensures ListOf(s', id, table) == ListOf(s, id, table) && RowsFit(s', id, table)
    ensures forall desc :: PlainRows(s', id, table, desc) == PlainRows(s, id, table, desc)
  {
  }

  /** One pass of the loop over rows: its request can be made, and the answer is the next row, the end or an error. */
  lemma OneRow(b: Bench, s: Server, envs: Envs, id: M.SessionId, table: UID, k: nat, desc: Option<TableDesc>)
    requires Bears(b, s, b.Count()) && RowsFit(s, id, table) && k <= |ListOf(s, id, table)| && Enumerates(desc)
    ensures var rows := ListOf(s, id, table);
      var op := Operation.Next(id, table, LastOf(rows, k), 1);
      var (r, d) := HostNextOne(b.device, Session(id, envs(b.Count())), table, LastOf(rows, k));
      && RemoteCalls.Ready(b.device, id, CallToValue(NextRequest(table, LastOf(rows, k), 1)), true, envs(b.Count()))
      && Bears(After(b, op, d), s, b.Count() + 1)
      && (r.Err? ==> PlainRows(s, id, table, desc) == Err(r.error) && rows == [])
      && (r == Ok(None) ==> k == |rows| && PlainRows(s, id, table, desc) == Ok(Shown(rows)))
      && (r.Ok? && r.value.Some? ==> k < |rows| && r.value.value == rows[k])
  {
    hide Bears, RemoteCalls.Ready, HostNextOne, PlainStep, After, CallToValue, NextRequest, Distinct, Shown;
    NextAgrees(b, s, envs, id, table, LastOf(ListOf(s, id, table), k));
    NextOnServer(s, envs(b.Count()).random, id, table, k);
  }

  lemma {:induction false} ShownGrows(rows: seq<UID>, k: nat)
    requires k < |rows|
    ensures Shown(rows[..k + 1]) == Shown(rows[..k]) + if rows[k] != 0 then [rows[k]] else []
  {
    assert rows[..k + 1][..k] == rows[..k];
  }

  lemma WithoutEnumeration(s: Server, id: M.SessionId, table: UID, desc: Option<TableDesc>)
    requires !Enumerates(desc)
    ensures PlainRows(s, id, table, desc)
            == if desc.None? then Err(InvalidArgument) else Ok([desc.value.singleRow.value])
  {
  }

  lemma BeforeTurns(s: Server, envs: Envs, sent: nat, others: Others, rows: seq<UID>)
    ensures Meanwhile(s, envs, sent, others, 0) == (s, sent) && Shown(rows[..0]) == []
  {
    hide PlainRun, MessagesOf;
  }

  /** What the others do in one turn fits. */
  lemma TurnFits(s: Server, envs: Envs, sent: nat, others: Others, k: nat)
    requires OthersFit(s, envs, sent, others)
    ensures var (s', n) := Meanwhile(s, envs, sent, others, k); RunFits(s', envs, n + 1, others(k))
  {
    hide RunFits, Meanwhile;
    assert RunFits(ServerAt(s, envs, sent, others, k), envs, Meanwhile(s, envs, sent, others, k).1 + 1, others(k));
  }

  lemma NextTurn(s: Server, envs: Envs, sent: nat, others: Others, k: nat)
    ensures var (s', n) := Meanwhile(s, envs, sent, others, k);
      Meanwhile(s, envs, sent, others, k + 1)
      == (PlainRun(s', envs, n + 1, others(k)).1, n + 1 + MessagesOf(others(k)))
  {
    hide PlainRun, MessagesOf;
  }

  lemma StillThereTransitive(s0: Server, s1: Server, s2: Server, id: M.SessionId)
    requires StillThere(s0, s1, id) && StillThere(s1, s2, id)
    ensures StillThere(s0, s2, id)
  {
  }

  //
  // Columns
  //

  /** A single column of an object, on the plain server. */
  function PlainColumn(s: Server, id: M.SessionId, uid: UID, column: uint32): Result<Value> {
    if !Reaches(s, id, uid) then Err(DeviceFailure)
    else
      var row :- PlainGet(s.cells, s.sessions[id], uid, column, Add32(column, 1));
      if row == [] then Err(InvalidResponse) else Ok(row[0])
  }

  function ColumnOp(id: M.SessionId, uid: UID, column: uint32): Operation {
    Operation.Get(id, uid, column, Add32(column, 1))
  }

  /** The replies with single columns stay below 2^32 bytes. */
  ghost predicate ColumnsFit(s: Server, envs: Envs, sent: nat, others: Others, id: M.SessionId, uid: UID,
                             count: uint32)
  {
    forall c: uint32 :: c < count ==> Fits(ServerAt(s, envs, sent, others, c), ColumnOp(id, uid, c))
  }

  /** Every value is what the server held in its column when its turn came. */
  ghost predicate ReadInTurn(s: Server, envs: Envs, sent: nat, others: Others, id: M.SessionId, uid: UID,
                              values: seq<Value>)
  {
    forall c: uint32 :: c < |values| ==> PlainColumn(ServerAt(s, envs, sent, others, c), id, uid, c) == Ok(values[c])
  }

  lemma ReadOneMore(s: Server, envs: Envs, sent: nat, others: Others, id: M.SessionId, uid: UID, values: seq<Value>,
                    value: Value)
    requires ReadInTurn(s, envs, sent, others, id, uid, values) && |values| < TWO_TO_32
    requires PlainColumn(ServerAt(s, envs, sent, others, |values|), id, uid, |values|) == Ok(value)
    ensures ReadInTurn(s, envs, sent, others, id, uid, values + [value])
  {
    hide PlainColumn, ServerAt;
  }

  lemma NothingReadYet(s: Server, envs: Envs, sent: nat, others: Others, id: M.SessionId, uid: UID)
    ensures ReadInTurn(s, envs, sent, others, id, uid, [])
  {
  }

  /** The host's request for one column can be made, and is answered as the server answers it. */
  lemma OneColumn(b: Bench, s: Server, envs: Envs, id: M.SessionId, uid: UID, column: uint32)
    requires Bears(b, s, b.Count()) && Fits(s, ColumnOp(id, uid, column))
    ensures var (value, d) := HostGetOne(b.device, Session(id, envs(b.Count())), uid, column);
      && RemoteCalls.Ready(b.device, id, CallToValue(GetRequest(uid, column, Add32(column, 1))), true, envs(b.Count()))
      && value == PlainColumn(s, id, uid, column)
      && Bears(After(b, ColumnOp(id, uid, column), d), s, b.Count() + 1)
  {
    hide Bears, Fits, RemoteCalls.Ready, HostGet, PlainGet, After, CallToValue, GetRequest;
    RequestIsReady(b, s, envs, ColumnOp(id, uid, column));
    StepKeepsBench(b, s, envs, ColumnOp(id, uid, column));
  }

  /** The session and the cells of the object are what they were. */
  ghost predicate Unwritten(s: Server, s': Server, id: M.SessionId, uid: UID)
    requires Reaches(s, id, uid)
  {
    && Reaches(s', id, uid) && s'.sessions[id] == s.sessions[id]
    && forall c: nat :: SameCell(s.cells, s'.cells, Cell(s.sessions[id], uid, c))
  }

  /** If the other hosts leave the object alone, what is read is the columns of the map, in wire form. */
  lemma ColumnsOneByOne(s: Server, envs: Envs, sent: nat, others: Others, id: M.SessionId, uid: UID, values: seq<Value>)
    requires Reaches(s, id, uid) && 0 < |values| < TWO_TO_32
    requires forall c: nat :: c < |values| ==> Unwritten(s, ServerAt(s, envs, sent, others, c), id, uid)
    requires ReadInTurn(s, envs, sent, others, id, uid, values)
    ensures var p := s.sessions[id];
      HasColumns(s.cells, p, uid, 0, |values|) && values == NormalAll(Columns(s.cells, p, uid, 0, |values|))
  {
    hide PlainColumn, Unwritten, ServerAt, Normal;
    forall c: uint32 | c < |values|
      ensures var m, p := s.cells, s.sessions[id];
        HasUid(m, p, uid) && Cell(p, uid, c) in m && values[c] == Normal(m[Cell(p, uid, c)])
    {
      assert Unwritten(s, ServerAt(s, envs, sent, others, c), id, uid);
      ColumnIsCell(s, ServerAt(s, envs, sent, others, c), id, uid, c, values[c]);
    }
    assert HasUid(s.cells, s.sessions[id], uid) by {
      assert 0 < |values|;
      ColumnIsCell(s, ServerAt(s, envs, sent, others, 0), id, uid, 0, values[0]);
    }
  }

  lemma ColumnIsCell(s: Server, s': Server, id: M.SessionId, uid: UID, column: uint32, value: Value)
    requires Reaches(s, id, uid) && Unwritten(s, s', id, uid) && column + 1 < TWO_TO_32
    requires PlainColumn(s', id, uid, column) == Ok(value)
    ensures var c := Cell(s.sessions[id], uid, column);
      HasUid(s.cells, s.sessions[id], uid) && c in s.cells && value == Normal(s.cells[c])
  {
    hide ReplySize, AllShowable, Normal;
    var m, p := s'.cells, s.sessions[id];
    Add32Exact(column, 1);
    var row := Columns(m, p, uid, column, column + 1);
    assert NormalAll(row)[0] == Normal(row[0]) && row[0] == m[Cell(p, uid, column)];
    assert SameCell(s.cells, m, Cell(p, uid, column)) && SameCell(s.cells, m, Cell(p, uid, 0));
  }

  class SimpleSession {
    const session: SessionTemplate

    constructor (session: SessionTemplate)
      ensures this.session == session
    {
      this.session := session;
    }

    /** The device is the mock device, and holds what the server holds. */
    ghost predicate Holds(s: Server)
      reads session.device
    {
      && IsBench(session.device, session.envs)
      && Bears(session.device.state, s, session.device.state.Count())
    }

    /**
     * GetTableRows: a table with a single row has a description that names it; otherwise the loop asks for one row
     * behind the last until there is none. It stops, and whatever other hosts do in between, it yields every row once,
     * in table order, except UID 0.
     */
    method GetTableRows(ghost s: Server, table: UID, desc: Option<TableDesc>, others: Others)
      returns (r: Result<seq<UID>>)
      requires Holds(s) && ListsFit(s, session.id, table)
      requires OthersFit(s, session.envs, session.device.state.Count(), others)
      requires forall k: nat :: AllBystanders(others(k), session.id)
      modifies session.device
      ensures r == PlainRows(s, session.id, table, desc)
      ensures var turns := Turns(s, session.id, table, desc);
        Holds(ServerAt(s, session.envs, old(session.device.state.Count()), others, turns))
    {
      hide IsBench, Bears, PlainRun, RunFits, HostNextOne, StillThere, MessagesOf, RowsFit, ListOf, Meanwhile,
           PlainRows, ListsFit, OthersFit, AllBystanders, Shown, After, RemoteCalls.Ready, CallToValue, NextRequest,
           HostRequests.Transcript, HostRequests.Added;
      BeforeTurns(s, session.envs, session.device.state.Count(), others, ListOf(s, session.id, table));
      RowsAreDistinct(session.device.state, s, session.id, table);
      if desc.None? {
        WithoutEnumeration(s, session.id, table, desc);
        return Err(InvalidArgument);
      }
      if desc.value.singleRow.Some? {
        WithoutEnumeration(s, session.id, table, desc);
        return Ok([desc.value.singleRow.value]);
      }
      ghost var envs, sent, id := session.envs, session.device.state.Count(), session.id;
      ghost var rows, server := ListOf(s, id, table), s;
      var k: nat := 0;  // turns of the other hosts
      var yielded: seq<UID> := [];
      var lastUid: Option<UID> := None;
      StillThereReflexive(s, id);
      while true
        invariant k <= |rows| && lastUid == LastOf(rows, k) && yielded == Shown(rows[..k])
        invariant Meanwhile(s, envs, sent, others, k) == (server, session.device.state.Count())
        invariant Holds(server) && StillThere(s, server, id)
        decreases |rows| - k
      {
        ghost var b := session.device.state;
        SameRows(s, server, id, table);
        OneRow(b, server, envs, id, table, k, desc);
        var rowUid := session.NextOne(table, lastUid);
        SentCount(session.device.state, server, b.Count() + 1);
        if rowUid.Err? {
          return Err(rowUid.error);
        }
        if rowUid.value.None? {
          assert rows[..k] == rows;
          return Ok(yielded);
        }
        ShownGrows(rows, k);
        if rowUid.value.value != 0 {
          yielded := yielded + [rowUid.value.value];
        }
        lastUid := rowUid.value;
        TurnFits(s, envs, sent, others, k);
        var _ := Execute(session.device, session.envs, server, others(k));
        NextTurn(s, envs, sent, others, k);
        BystandersRun(server, envs, b.Count() + 1, others(k), id);
        server := PlainRun(server, envs, b.Count() + 1, others(k)).1;
        StillThereTransitive(s, Meanwhile(s, envs, sent, others, k).0, server, id);
        SentCount(session.device.state, server, b.Count() + 1 + MessagesOf(others(k)));
        k := k + 1;
      }
    }

    /**
     * GetObjectColumns: one Get for each column that the description of the object's table lists. Each column is what
     * the server holds when its turn comes, up to the first that cannot be read, whose error is raised.
     */
    method GetObjectColumns(ghost s: Server, object_: UID, desc: Option<TableDesc>, others: Others)
      returns (yielded: seq<Value>, r: Result<()>)
      requires Holds(s) && OthersFit(s, session.envs, session.device.state.Count(), others)
      requires desc.Some? ==>
        ColumnsFit(s, session.envs, session.device.state.Count(), others, session.id, object_, desc.value.columnCount)
      modifies session.device
      ensures desc.None? ==> yielded == [] && r == Err(InvalidArgument)
      ensures desc.Some? ==>
        && |yielded| <= desc.value.columnCount
        && ReadInTurn(s, session.envs, old(session.device.state.Count()), others, session.id, object_, yielded)
        && (r.Ok? ==> |yielded| == desc.value.columnCount)
        && (r.Err? ==>
              && |yielded| < desc.value.columnCount
              && PlainColumn(ServerAt(s, session.envs, old(session.device.state.Count()), others, |yielded|),
                             session.id, object_, |yielded|) == Err(r.error))
      ensures Holds(ServerAt(s, session.envs, old(session.device.state.Count()), others, |yielded|))
    {
      hide IsBench, Bears, PlainRun, RunFits, HostGetOne, MessagesOf, Meanwhile, After, RemoteCalls.Ready, CallToValue,
           GetRequest, PlainColumn, Fits, OthersFit, ReadInTurn, HostRequests.Transcript, HostRequests.Added;
      NothingReadYet(s, session.envs, session.device.state.Count(), others, session.id, object_);
      BeforeTurns(s, session.envs, session.device.state.Count(), others, []);
      yielded := [];
      if desc.None? {
        return yielded, Err(InvalidArgument);
      }
      ghost var envs, sent, id := session.envs, session.device.state.Count(), session.id;
      ghost var server := s;
      var index: uint32 := 0;
      while index < desc.value.columnCount
        invariant index == |yielded| <= desc.value.columnCount
        invariant ReadInTurn(s, envs, sent, others, id, object_, yielded)
        invariant Meanwhile(s, envs, sent, others, index) == (server, session.device.state.Count())
        invariant Holds(server)
      {
        ghost var b := session.device.state;
        assert ServerAt(s, envs, sent, others, index) == server;
        OneColumn(b, server, envs, id, object_, index);
        var value := session.GetOne(object_, index);
        SentCount(session.device.state, server, b.Count() + 1);
        if value.Err? {
          return yielded, Err(value.error);
        }
        ReadOneMore(s, envs, sent, others, id, object_, yielded, value.value);
        yielded := yielded + [value.value];
        TurnFits(s, envs, sent, others, index);
        var _ := Execute(session.device, session.envs, server, others(index));
        NextTurn(s, envs, sent, others, index);
        server := PlainRun(server, envs, b.Count() + 1, others(index)).1;
        SentCount(session.device.state, server, b.Count() + 1 + MessagesOf(others(index)));
        index := index + 1;
      }
      r := Ok(());
    }
  }
}
