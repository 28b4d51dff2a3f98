/** The rows of a table, page by page, over the wire (Session.cpp, MockDevice.cpp). */
module HostTables {
  import opened Common
  import opened Values
  import opened Methods
  import opened Rpc
  import opened WireSizes
  import opened Exchange
  import opened State
  import opened SessionMethods
  import opened RemoteCalls
  import opened HostSession
  import opened RemoteTable
  import M = MockDevice

  //
  // Pages of a table
  //

  predicate Distinct(rows: seq<UID>) {
    forall i, j :: 0 <= i < j < |rows| ==> rows[i] != rows[j]
  }

  /** Where an enumeration stands after its first k rows. */
  function LastOf(rows: seq<UID>, k: nat): Option<UID>
    requires k <= |rows|
  {
    if k == 0 then None else Some(rows[k - 1])
  }

  lemma {:induction false} IndexOfRow(rows: seq<UID>, k: nat)
    requires Distinct(rows) && k < |rows|
    ensures IndexOf(rows, rows[k]) == k
  {
    if k > 0 {
      IndexOfRow(rows[1..], k - 1);
    }
  }

  /** One page: the rows behind the last one, at most count of them. */
  function Page(rows: seq<UID>, last: Option<UID>, count: nat): Result<seq<UID>> {
    var after :- RowsAfter(rows, last);
    Ok(TakeRows(after, Some(count)))
  }

  lemma PageIsSlice(rows: seq<UID>, k: nat, count: nat)
    requires Distinct(rows) && k <= |rows|
    ensures Page(rows, LastOf(rows, k), count) == Ok(rows[k..Min(k + count, |rows|)])
  {
    if k > 0 {
      IndexOfRow(rows, k - 1);
    }
    assert rows[0..] == rows;
    assert RowsAfter(rows, LastOf(rows, k)) == Ok(rows[k..]);
    if count < |rows| - k {
      assert rows[k..][..count] == rows[k..k + count];
    } else {
      assert rows[k..] == rows[k..|rows|];
    }
  }

  /** Pages of the given sizes, each asked for behind the last row of the one before, until a page is empty. */
  function Pages(rows: seq<UID>, last: Option<UID>, counts: seq<nat>): Result<seq<UID>>
    decreases |counts|
  {
    if counts == [] then Ok([])
    else
      var page :- Page(rows, last, counts[0]);
      if page == [] then Ok([])
      else
        var rest :- Pages(rows, Some(page[|page| - 1]), counts[1..]);
        Ok(page + rest)
  }

  function Sum(counts: seq<nat>): nat {
    if counts == [] then 0 else counts[0] + Sum(counts[1..])
  }

  /** Whatever the page sizes, the pages put together are the rows in table order, as far as the sizes reach. */
  lemma {:induction false} PagesConcatenate(rows: seq<UID>, k: nat, counts: seq<nat>)
    requires Distinct(rows) && k <= |rows|
    requires forall i :: 0 <= i < |counts| ==> counts[i] > 0
    ensures Pages(rows, LastOf(rows, k), counts) == Ok(rows[k..Min(k + Sum(counts), |rows|)])
    decreases |counts|
  {
    hide Page;
    assert rows[k..k] == [];
    if counts == [] {
      assert Sum(counts) == 0 && Min(k, |rows|) == k;
    } else {
      PageIsSlice(rows, k, counts[0]);
      var next := Min(k + counts[0], |rows|);
      var page := rows[k..next];
      if k < |rows| {
        assert page[|page| - 1] == rows[next - 1];
        PagesConcatenate(rows, next, counts[1..]);
        var end := Min(next + Sum(counts[1..]), |rows|);
        assert end == Min(k + Sum(counts), |rows|);
        SlicesJoin(rows, k, next, end);
      } else {
        assert page == [] && Min(k + Sum(counts), |rows|) == k;
      }
    }
  }

  lemma SlicesJoin(rows: seq<UID>, a: nat, b: nat, c: nat)
    requires a <= b <= c <= |rows|
    ensures rows[a..b] + rows[b..c] == rows[a..c]
  {
  }

  //
  // Next over the wire
  //

  lemma {:induction false} UidListSize(uids: seq<UID>)
    ensures WireSizeAll(UidValues(uids)) == 9 * |uids|
  {
    hide UidBytes;
    if uids != [] {
      UidSize(uids[0]);
      assert UidValues(uids)[1..] == UidValues(uids[1..]);
      UidListSize(uids[1..]);
    }
  }

  lemma {:induction false} UidsRead(uids: seq<UID>)
    ensures UidsOf(UidValues(uids)) == Ok(uids)
  {
    hide UidBytes;
    if uids != [] {
      UidRoundTrip(uids[0]);
      assert UidValues(uids)[1..] == UidValues(uids[1..]);
      UidsRead(uids[1..]);
      assert GetUid(UidValues(uids)[0]) == Ok(uids[0]);
      assert [uids[0]] + uids[1..] == uids;
    }
  }

  /** A list of identifiers as a reply: sendable, unchanged by the wire, of known size, and read back. */
  lemma UidReply(uids: seq<UID>)
    ensures var values := [List(UidValues(uids))];
      && AllWellTyped(values) && AllSendable(values) && NormalAll(values) == values
      && ResultSize(values) == 9 * |uids| + 13
      && CollectUids(UnpackResult(Ok(MethodResult(values, SUCCESS)), 1)) == Ok(uids)
  {
    hide UidBytes, UnpackArgs, UidsOf;
    var values := [List(UidValues(uids))];
    UidListSize(uids);
    UidsRead(uids);
    UidsOnWire(uids);
    FixedByWire(UidValues(uids));
    assert Normal(values[0]) == values[0];
    FixedByWire(values);
    ListOnWire(UidValues(uids));
    UnpackUndoesPack(values, []);
    assert PackArgs(values, []) == values;
    assert values[1..] == [] && WireSizeAll(values) == WireSize(values[0]);
  }

  lemma UidsOnWire(uids: seq<UID>)
    ensures AllWellTyped(UidValues(uids)) && AllSendable(UidValues(uids))
    ensures forall i :: 0 <= i < |uids| ==> Normal(UidValues(uids)[i]) == UidValues(uids)[i]
  {
    assert forall i :: 0 <= i < |uids| ==> |UidBytes(uids[i])| == 8;
  }

  lemma NextArgumentsPacked(row: Option<UID>, count: uint32)
    ensures NextRequest(0, row, count).args ==
      (if row.Some? then [Named(Integer(U16, 0), UidValue(row.value))] else [])
      + [Named(Integer(U16, 1), Integer(U32, count))]
  {
    var optionals := [UidOption(row), Some(Integer(U32, count))];
    assert optionals[1..] == [Some(Integer(U32, count))] && optionals[1..][1..] == [];
    assert PackOptionals(2, []) == [];
    assert PackOptionals(1, optionals[1..]) == [Named(Integer(U16, 1), Integer(U32, count))] + [];
  }

  lemma NextArguments(row: Option<UID>, count: uint32)
    ensures var args := NextRequest(0, row, count).args;
      && AllWellTyped(args) && AllSendable(args) && CallSize(args) < 100
      && UnpackArgs(0, 2, NormalAll(args))
         == Ok(([], [UidOption(row), Some(Integer(U32, count))]))
  {
    hide UnpackArgs, UidBytes;
    var optionals := [UidOption(row), Some(Integer(U32, count))];
    NextArgumentsPacked(row, count);
    UnpackAcrossWire([], optionals);
    assert NormalOptionals(optionals) == optionals;
    assert NormalAll([]) == [];
    NumberedValue(U16, 1, Integer(U32, count));
    var tail := [Named(Integer(U16, 1), Integer(U32, count))];
    assert tail[1..] == [] && WireSizeAll(tail) == WireSize(tail[0]) <= 20;
    if row.Some? {
      NumberedValue(U16, 0, UidValue(row.value));
      UidSize(row.value);
      UidsOnWire([row.value]);
      assert UidValues([row.value])[0] == UidValue(row.value);
      var head := [Named(Integer(U16, 0), UidValue(row.value))];
      assert head[1..] == [] && WireSizeAll(head) == WireSize(head[0]) <= 20;
      WireSizeConcat(head, tail);
    }
  }

  lemma DeviceNext(ps: seq<Provider>, p: nat, table: UID, row: Option<UID>, count: uint32, random: nat -> seq<byte>)
    requires p < |ps| && table in ps[p].tables
    ensures var request := NextRequest(table, row, count);
      var page := Page(ps[p].tables[table].rows, row, count);
      CallMethod(ps, p, request.(args := NormalAll(request.args)), random)
      == (if page.Err? then Err(page.error) else Ok(MethodResult([List(UidValues(page.value))], SUCCESS)), ps)
    ensures var page := Page(ps[p].tables[table].rows, row, count);
      if page.Ok? then |page.value| <= |ps[p].tables[table].rows| else page.error == AssertionFailed
  {
    hide UnpackArgs, UidBytes, UidValues;
    NextArguments(row, count);
    if row.Some? {
      UidRoundTrip(row.value);
    }
    assert Cast(U32, count) == count;
  }

  /** An open session, as the host needs it for a call. */
  predicate InSession(d: M.Device, host: Session, p: nat) {
    d.comIdExtension == 0 && host.id in d.sessions && d.sessions[host.id] == p
  }

  /** The rows of the tables of a provider. */
  type RowLists = map<UID, seq<UID>>

  function RowsOf(ts: Tables): RowLists {
    map t | t in ts :: ts[t].rows
  }

  /** Next: a page of the table, if it fits a frame of the host's receive buffer. */
  function PlainNext(lists: RowLists, table: UID, row: Option<UID>, count: uint32): Result<seq<UID>> {
    if table !in lists then Err(InvocationFailure(INVALID_PARAMETER))
    else
      var page :- Page(lists[table], row, count);
      if FrameSize(9 * |page| + 13) >= BUFFER_LIMIT then Err(ProtocolFailure) else Ok(page)
  }

  /** The identifiers of the table stay below the 32-bit length fields. */
  predicate NextFits(lists: RowLists, table: UID) {
    table in lists ==> 9 * |lists[table]| + 13 < MAX_PAYLOAD
  }

  lemma PageArrives(d: M.Device, host: Session, p: nat, table: UID, row: Option<UID>, count: uint32)
    requires InSession(d, host, p) && table != M.SESSION_MANAGER && NextFits(RowsOf(d.providers[p].tables), table)
    requires table in d.providers[p].tables
    ensures CallFits(NextRequest(table, row, count)) && AllSendable(NextRequest(table, row, count).args)
    ensures ReplyFits(DeviceResult(d, NextRequest(table, row, count), host.id, host.env))
    ensures var (r, d') := HostNext(d, host, table, row, count);
      OnlyResponse(d, d') && r == PlainNext(RowsOf(d.providers[p].tables), table, row, count)
  {
    hide CallMethod, RemoteCall, PackArgs, AllSendable, AllWellTyped, Frame, CollectUids, UnpackResult, ResultSize,
         CallSize, Page, UidValues, NormalAll;
    NextArguments(row, count);
    DeviceNext(d.providers, p, table, row, count, host.env.random);
    var page := Page(d.providers[p].tables[table].rows, row, count);
    if page.Ok? {
      UidReply(page.value);
    }
    RemoteCallIsDirect(d, NextRequest(table, row, count), host.id, host.env);
    ErrorsPropagate();
  }

  lemma TableIsMissing(d: M.Device, host: Session, p: nat, table: UID, row: Option<UID>, count: uint32)
    requires InSession(d, host, p) && table != M.SESSION_MANAGER && table !in d.providers[p].tables
    ensures CallFits(NextRequest(table, row, count)) && AllSendable(NextRequest(table, row, count).args)
    ensures ReplyFits(DeviceResult(d, NextRequest(table, row, count), host.id, host.env))
    ensures var (r, d') := HostNext(d, host, table, row, count);
      OnlyResponse(d, d') && r == Err(InvocationFailure(INVALID_PARAMETER))
  {
    hide CallMethod, RemoteCall, PackArgs, AllSendable, AllWellTyped, Frame, CollectUids, UnpackResult, ResultSize,
         CallSize, UidValues, NormalAll;
    NextArguments(row, count);
    DeviceMissesTable(d.providers, p, table, row, count, host.env.random);
    InvalidReply();
    RemoteCallIsDirect(d, NextRequest(table, row, count), host.id, host.env);
    ErrorsPropagate();
  }

  /** A host Next over the wire yields the device's page, and changes nothing but the pending response. */
  lemma NextRefines(d: M.Device, host: Session, p: nat, table: UID, row: Option<UID>, count: uint32)
    requires InSession(d, host, p) && table != M.SESSION_MANAGER && NextFits(RowsOf(d.providers[p].tables), table)
    ensures CallFits(NextRequest(table, row, count)) && AllSendable(NextRequest(table, row, count).args)
    ensures ReplyFits(DeviceResult(d, NextRequest(table, row, count), host.id, host.env))
    ensures var (r, d') := HostNext(d, host, table, row, count);
      OnlyResponse(d, d') && r == PlainNext(RowsOf(d.providers[p].tables), table, row, count)
  {
    hide CallFits, ReplyFits, DeviceResult, AllSendable, HostNext, NextRequest, Page;
    if table in d.providers[p].tables {
      PageArrives(d, host, p, table, row, count);
    } else {
      TableIsMissing(d, host, p, table, row, count);
    }
  }

  lemma DeviceMissesTable(ps: seq<Provider>, p: nat, table: UID, row: Option<UID>, count: uint32,
                          random: nat -> seq<byte>)
    requires p < |ps| && table !in ps[p].tables
    ensures var request := NextRequest(table, row, count);
      CallMethod(ps, p, request.(args := NormalAll(request.args)), random)
      == (Ok(MethodResult([List([])], INVALID_PARAMETER)), ps)
  {
    hide UnpackArgs, UidBytes;
    NextArguments(row, count);
    if row.Some? {
      UidRoundTrip(row.value);
    }
  }

  lemma ErrorsPropagate()
    ensures forall e: Error :: CollectUids(UnpackResult(Err(e), 1)) == Err(e)
  {
  }

  //
  // What a host is shown
  //

  /** The rows a host is shown: all of them but UID 0. */
  function Shown(rows: seq<UID>): seq<UID> {
    if rows == [] then [] else Shown(rows[..|rows| - 1]) + if rows[|rows| - 1] != 0 then [rows[|rows| - 1]] else []
  }

  /** Shown keeps the order, and shows each row other than 0 exactly once. */
  lemma {:induction false} ShownRows(rows: seq<UID>)
    requires Distinct(rows)
    ensures Distinct(Shown(rows))
    ensures forall u :: u in Shown(rows) <==> u in rows && u != 0
    ensures 0 !in rows ==> Shown(rows) == rows
  {
    if rows != [] {
      var init := rows[..|rows| - 1];
      ShownRows(init);
      assert rows == init + [rows[|rows| - 1]];
      forall j | 0 <= j < |Shown(init)| ensures Shown(init)[j] != rows[|rows| - 1] {
        assert Shown(init)[j] in init;
      }
    }
  }
}
