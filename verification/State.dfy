/** Objects, tables and security providers of the mock device (State.cpp), and the plain map of cells they amount to. */
module State {
  import opened Common
  import opened Values
  import opened Methods

  /** Objects by UID; rows fixes the arbitrary order in which the hash map is iterated. */
  datatype Table = Table(rows: seq<UID>, objects: map<UID, seq<Value>>)

  type Tables = map<UID, Table>

  datatype Provider = Provider(uid: UID, tables: Tables)

  ghost predicate ValidTable(t: Table) {
    && (forall i, j :: 0 <= i < j < |t.rows| ==> t.rows[i] != t.rows[j])
    && (forall u :: u in t.rows <==> u in t.objects)
    && (forall u :: u in t.objects ==> t.objects[u] != [])
  }

  ghost predicate ValidTables(ts: Tables) {
    forall t :: t in ts ==> ValidTable(ts[t])
  }

  ghost predicate ValidProviders(ps: seq<Provider>) {
    forall p :: 0 <= p < |ps| ==> ValidTables(ps[p].tables)
  }

  /** Object(uid, values): column 0 holds the UID. */
  function NewRow(uid: UID, values: seq<Value>): seq<Value> {
    [UidValue(uid)] + values
  }

  /** No later object has the same UID. */
  predicate LastWithUid(objects: seq<(UID, seq<Value>)>, i: nat)
    requires i < |objects|
  {
    forall j :: i < j < |objects| ==> objects[j].0 != objects[i].0
  }

  /** What the table constructor makes of its objects: a repeated UID replaces the earlier row. */
  ghost predicate Holds(t: Table, objects: seq<(UID, seq<Value>)>) {
    && ValidTable(t)
    && (forall u :: u in t.objects <==> exists i :: 0 <= i < |objects| && objects[i].0 == u)
    && (forall i :: 0 <= i < |objects| && LastWithUid(objects, i) ==>
          objects[i].0 in t.objects && t.objects[objects[i].0] == NewRow(objects[i].0, objects[i].1))
  }

  /** The loop of Table's constructor: rows of unequal size are refused. */
  method NewTable(objects: seq<(UID, seq<Value>)>) returns (r: Result<Table>)
    ensures r.Ok? <==> forall i :: 0 < i < |objects| ==> |objects[i].1| == |objects[0].1|
    ensures r.Ok? ==> Holds(r.value, objects)
    ensures r.Err? ==> r.error == InvalidArgument
  {
    hide Holds, NewRow;
    var t := Table([], map[]);
    EmptyHolds(objects);
    for i := 0 to |objects|
      invariant forall k :: 0 < k < i ==> |objects[k].1| == |objects[0].1|
      invariant Holds(t, objects[..i])
    {
      if |objects[0].1| != |objects[i].1| {
        return Err(InvalidArgument);
      }
      InsertHolds(t, objects, i);
      t := Insert(t, objects[i].0, objects[i].1);
    }
    assert objects[..|objects|] == objects;
    r := Ok(t);
  }

  /** insert_or_assign: a new UID gets some place in the iteration order. */
  function Insert(t: Table, uid: UID, values: seq<Value>): Table {
    Table(if uid in t.objects then t.rows else t.rows + [uid], t.objects[uid := NewRow(uid, values)])
  }

  lemma EmptyHolds(objects: seq<(UID, seq<Value>)>)
    ensures Holds(Table([], map[]), objects[..0])
  {
  }

  lemma InsertIsValid(t: Table, uid: UID, values: seq<Value>)
    requires ValidTable(t)
    ensures ValidTable(Insert(t, uid, values))
  {
    var t' := Insert(t, uid, values);
    assert forall u :: u in t'.rows <==> u in t.rows || u == uid;
  }

  lemma InsertHolds(t: Table, objects: seq<(UID, seq<Value>)>, i: nat)
    requires i < |objects| && Holds(t, objects[..i])
    ensures Holds(Insert(t, objects[i].0, objects[i].1), objects[..i + 1])
  {
    hide NewRow, ValidTable;
    var (uid, values) := objects[i];
    var t', init, more := Insert(t, uid, values), objects[..i], objects[..i + 1];
    assert more == init + [objects[i]];
    InsertIsValid(t, uid, values);
    forall u ensures u in t'.objects <==> exists k :: 0 <= k < |more| && more[k].0 == u {
      UidsExtended(init, objects[i], u);
    }
    forall k | 0 <= k < |more| && LastWithUid(more, k)
      ensures more[k].0 in t'.objects && t'.objects[more[k].0] == NewRow(more[k].0, more[k].1)
    {
      if k < i {
        LastStays(init, objects[i], k);
      }
    }
  }

  lemma UidsExtended(init: seq<(UID, seq<Value>)>, last: (UID, seq<Value>), u: UID)
    ensures (exists k :: 0 <= k < |init + [last]| && (init + [last])[k].0 == u)
            <==> last.0 == u || exists k :: 0 <= k < |init| && init[k].0 == u
  {
    var more := init + [last];
    assert more[|init|] == last;
    if k :| 0 <= k < |init| && init[k].0 == u {
      assert more[k].0 == u;
    }
  }

  lemma LastStays(init: seq<(UID, seq<Value>)>, last: (UID, seq<Value>), k: nat)
    requires k < |init| && LastWithUid(init + [last], k)
    ensures LastWithUid(init, k) && last.0 != init[k].0
  {
    var more := init + [last];
    assert more[|init|].0 != more[k].0;
    forall j | k < j < |init| ensures init[j].0 != init[k].0 {
      assert more[j].0 != more[k].0;
    }
  }

  predicate HasObject(ts: Tables, o: UID) {
    ContainingTable(o) in ts && o in ts[ContainingTable(o)].objects
  }

  function Row(ts: Tables, o: UID): seq<Value>
    requires HasObject(ts, o)
  {
    ts[ContainingTable(o)].objects[o]
  }

  /** A row is written in place: its table keeps its order and its other objects. */
  function WithRow(ts: Tables, o: UID, row: seq<Value>): Tables
    requires HasObject(ts, o)
  {
    var t := ts[ContainingTable(o)];
    ts[ContainingTable(o) := t.(objects := t.objects[o := row])]
  }

  /** The later of two writes of a row counts. */
  lemma OverwrittenRow(ts: Tables, uid: UID, row1: seq<Value>, row2: seq<Value>)
    requires HasObject(ts, uid)
    ensures HasObject(WithRow(ts, uid, row1), uid) && Row(WithRow(ts, uid, row1), uid) == row1
    ensures WithRow(WithRow(ts, uid, row1), uid, row2) == WithRow(ts, uid, row2)
  {
    var t := ts[ContainingTable(uid)];
    assert t.objects[uid := row1][uid := row2] == t.objects[uid := row2];
  }

  function WithTables(ps: seq<Provider>, p: nat, ts: Tables): seq<Provider>
    requires p < |ps|
  {
    ps[p := ps[p].(tables := ts)]
  }

  //
  // The plain map
  //

  /** One cell: a provider by its position, an object by its UID, a column by its number. */
  datatype Cell = Cell(provider: nat, uid: UID, column: nat)

  type Cells = map<Cell, Value>

  predicate HasCell(ps: seq<Provider>, c: Cell) {
    && |ps| > c.provider
    && HasObject(ps[c.provider].tables, c.uid)
    && |Row(ps[c.provider].tables, c.uid)| > c.column
  }

  function CellAt(ps: seq<Provider>, c: Cell): Value
    requires HasCell(ps, c)
  {
    Row(ps[c.provider].tables, c.uid)[c.column]
  }

  /** The providers hold exactly the cells of the map. */
  ghost predicate Represents(ps: seq<Provider>, m: Cells) {
    && (forall c {:trigger c in m} {:trigger HasCell(ps, c)} :: c in m <==> HasCell(ps, c))
    && (forall c {:trigger m[c]} {:trigger CellAt(ps, c)} :: HasCell(ps, c) ==> CellAt(ps, c) == m[c])
  }

  /** Which providers, tables and objects there are, in which order, with how many columns. */
  predicate SameShape(ps: seq<Provider>, qs: seq<Provider>) {
    && |ps| == |qs|
    && forall p :: 0 <= p < |ps| ==> ps[p].uid == qs[p].uid && SameTables(ps[p].tables, qs[p].tables)
  }

  predicate SameTables(ts: Tables, us: Tables) {
    && ts.Keys == us.Keys
    && forall t :: t in ts ==>
         && ts[t].rows == us[t].rows
         && ts[t].objects.Keys == us[t].objects.Keys
         && forall o :: o in ts[t].objects ==> |ts[t].objects[o]| == |us[t].objects[o]|
  }

  /** Writing one cell is one update of the plain map, and changes no shape. */
  lemma WriteCell(ps: seq<Provider>, m: Cells, c: Cell, v: Value)
    requires Represents(ps, m) && HasCell(ps, c)
    ensures var ts := ps[c.provider].tables;
      var qs := WithTables(ps, c.provider, WithRow(ts, c.uid, Row(ts, c.uid)[c.column := v]));
      && Represents(qs, m[c := v])
      && SameShape(ps, qs)
      && HasCell(qs, c)
      && (ValidProviders(ps) ==> ValidProviders(qs))
  {
    var ts := ps[c.provider].tables;
    var row := Row(ts, c.uid)[c.column := v];
    var us := WithRow(ts, c.uid, row);
    var qs := WithTables(ps, c.provider, us);
    var m' := m[c := v];
    forall d ensures HasCell(qs, d) <==> d in m'
      ensures HasCell(qs, d) ==> CellAt(qs, d) == m'[d]
    {
      assert d.uid != c.uid || d.provider != c.provider ==> (HasCell(qs, d) <==> HasCell(ps, d));
      assert d in m <==> HasCell(ps, d);
      if HasCell(ps, d) {
        assert CellAt(ps, d) == m[d];
      }
    }
    WrittenTableIsValid(ts, c.uid, row);
  }

  lemma WrittenTableIsValid(ts: Tables, o: UID, row: seq<Value>)
    requires HasObject(ts, o) && |row| == |Row(ts, o)|
    ensures SameTables(ts, WithRow(ts, o, row))
    ensures ValidTables(ts) && row != [] ==> ValidTables(WithRow(ts, o, row))
  {
    hide ValidTable;
    var t := ts[ContainingTable(o)];
    WrittenRowIsValid(t, o, row);
  }

  lemma WrittenRowIsValid(t: Table, o: UID, row: seq<Value>)
    requires o in t.objects && |row| == |t.objects[o]|
    ensures var t' := t.(objects := t.objects[o := row]);
      && t'.objects.Keys == t.objects.Keys
      && (forall u :: u in t.objects ==> |t.objects[u]| == |t'.objects[u]|)
      && (ValidTable(t) && row != [] ==> ValidTable(t'))
  {
  }

  lemma SameShapeTransitive(ps: seq<Provider>, qs: seq<Provider>, rs: seq<Provider>)
    requires SameShape(ps, qs) && SameShape(qs, rs)
    ensures SameShape(ps, rs)
  {
  }
}
