/**
 * The table store: the Table entity, the process-wide lists Tables and
 * TableNames, and the three handlers that change them (CreateTable,
 * AddField, AddRecord). Each handler is a method on the store, proved
 * against a pure function on a snapshot of the store.
 */
module Tables {
  import opened Common
  import opened Values
  import Alphabet

  /** The contents of a Table at one moment. */
  datatype TableValue = TableValue(
    name: string,
    fieldNames: seq<string>,
    fieldTypes: seq<ValueType>,
    records: seq<seq<Value>>)

  /** The contents of the store (Tables and TableNames) at one moment. */
  datatype StoreValue = StoreValue(tables: seq<TableValue>, tableNames: seq<string>)

  const EmptyStore: StoreValue := StoreValue([], [])

  function NewTable(name: string): TableValue {
    TableValue(name, [], [], [])
  }

  /** Tables.Last(): fails on an empty store, and otherwise returns the table added last. */
  function LastTable(s: StoreValue): (r: Result<TableValue>)
    ensures r.Ok? <==> s.tables != []
    ensures r.Ok? ==> r.value == s.tables[|s.tables| - 1]
  {
    if s.tables == [] then Err(NoTable) else Ok(s.tables[|s.tables| - 1])
  }

  /** The store with its last table replaced. */
  function WithLast(s: StoreValue, t: TableValue): StoreValue
    requires s.tables != []
  {
    s.(tables := s.tables[..|s.tables| - 1] + [t])
  }

  /** records.Last().Add(v) on a non-empty record list. */
  function AppendToLast(records: seq<seq<Value>>, v: Value): seq<seq<Value>>
    requires records != []
  {
    records[..|records| - 1] + [records[|records| - 1] + [v]]
  }

  /** The skip hint AddRecord returns: 4 when the next column exists and holds an Integer. */
  function NextColumnHint(t: TableValue, id: byte): byte {
    if id as int + 1 < |t.fieldTypes| && t.fieldTypes[id as int + 1] == IntegerType then 4 else 0
  }

  /** The CreateTable handler: decode the name, append a new empty table and its name. */
  function CreateTableSpec(s: StoreValue, bytes: seq<byte>): Result<(StoreValue, byte)> {
    var name :- Alphabet.DecodeBytes(bytes);
    Ok((StoreValue(s.tables + [NewTable(name)], s.tableNames + [name]), 0))
  }

  /**
   * The AddField handler. An even field index names a field, an odd one
   * gives the type of the field just named, as a one-byte type code.
   */
  function AddFieldSpec(s: StoreValue, id: byte, bytes: seq<byte>): Result<(StoreValue, byte)> {
    if id % 2 == 0 then FieldNameSpec(s, bytes) else FieldTypeSpec(s, bytes)
  }

  /** AddField on an even index: append a new, unique field name to the last table. */
  function FieldNameSpec(s: StoreValue, bytes: seq<byte>): Result<(StoreValue, byte)> {
    var name :- Alphabet.DecodeBytes(bytes);
    var table :- LastTable(s);
    if name in table.fieldNames then Err(DuplicateFieldName)
    else Ok((WithLast(s, table.(fieldNames := table.fieldNames + [name])), 0))
  }

  /** AddField on an odd index: append the type whose code is the single payload byte. */
  function FieldTypeSpec(s: StoreValue, bytes: seq<byte>): Result<(StoreValue, byte)> {
    if |bytes| == 1 then
      var index := (bytes[0] as int - CommandCount) % 256;
      var table :- LastTable(s);
      if index < |TypeMap| then
        Ok((WithLast(s, table.(fieldTypes := table.fieldTypes + [TypeMap[index]])), 0))
      else
        Err(UnknownType)
    else
      Err(InvalidTypeByte)
  }

  /**
   * The AddRecord handler: decode the payload with the type of column id,
   * start a new record when id is 0, append the value to the last record.
   */
  function AddRecordSpec(s: StoreValue, id: byte, bytes: seq<byte>): Result<(StoreValue, byte)> {
    var table :- LastTable(s);
    if id as int > |table.fieldNames| then Err(ByteOverflow)
    else if id as int >= |table.fieldTypes| then Err(NoColumnType)
    else
      var v :- DecodeValue(table.fieldTypes[id], bytes);
      var records := if id == 0 then table.records + [[]] else table.records;
      if records == [] then Err(NoRecord)
      else Ok((WithLast(s, table.(records := AppendToLast(records, v))), NextColumnHint(table, id)))
  }

  /** A handler method returned r and left the store at after, as its specification says. */
  predicate Performs(spec: Result<(StoreValue, byte)>, r: Result<byte>, before: StoreValue, after: StoreValue) {
    match spec
    case Ok((s, hint)) => r == Ok(hint) && after == s
    case Err(e) => r == Err(e) && after == before
  }

  class Table {
    var name: string
    var fieldNames: seq<string>
    var fieldTypes: seq<ValueType>
    var records: seq<seq<Value>>

    function Snapshot(): TableValue
      reads this
    {
      TableValue(name, fieldNames, fieldTypes, records)
    }

    constructor (name: string)
      ensures Snapshot() == NewTable(name)
    {
      this.name := name;
      fieldNames := [];
      fieldTypes := [];
      records := [];
    }

    /** Starts a new, empty record. */
    method CreateRecord()
      modifies this
      ensures Snapshot() == old(Snapshot()).(records := old(records) + [[]])
    {
      records := records + [[]];
    }

    /** Appends a value to the last record; fails when there is none. */
    method AddRecordValue(v: Value) returns (r: Result<()>)
      modifies this
      ensures r.Ok? <==> old(records) != []
      ensures r.Err? ==> r.error == NoRecord && Snapshot() == old(Snapshot())
      ensures r.Ok? ==> Snapshot() == old(Snapshot()).(records := AppendToLast(old(records), v))
    {
      if records == [] {
        return Err(NoRecord);
      }
      records := AppendToLast(records, v);
      r := Ok(());
    }
  }

  /** The snapshots of a list of tables. */
  ghost function Snapshots(ts: seq<Table>): (r: seq<TableValue>)
    reads ts
  {
    seq(|ts|, i requires 0 <= i < |ts| reads ts => ts[i].Snapshot())
  }

  /** The lists Tables and TableNames, and the handlers that change them. */
  class Store {
    var tables: seq<Table>
    var tableNames: seq<string>

    /** No table object appears twice, so changing the last one leaves the others alone. */
    ghost predicate Valid()
      reads this
    {
      forall i, j :: 0 <= i < j < |tables| ==> tables[i] != tables[j]
    }

    /** The table objects the handlers may change. */
    ghost function Repr(): set<Table>
      reads this
    {
      set t | t in tables
    }

    ghost function View(): StoreValue
      reads this, tables
    {
      StoreValue(Snapshots(tables), tableNames)
    }

    constructor ()
      ensures Valid() && View() == EmptyStore
    {
      tables := [];
      tableNames := [];
    }

    method CreateTable(bytes: seq<byte>) returns (r: Result<byte>)
      requires Valid()
      modifies this
      ensures Valid()
      ensures forall t :: t in tables ==> t in old(tables) || fresh(t)
      ensures Performs(CreateTableSpec(old(View()), bytes), r, old(View()), View())
    {
      var tableName :- Alphabet.BytesToString(bytes);
      var table := new Table(tableName);
      tables := tables + [table];
      tableNames := tableNames + [tableName];
      Appended(old(View()));
      r := Ok(0);
    }

    method AddField(id: byte, bytes: seq<byte>) returns (r: Result<byte>)
      requires Valid()
      modifies Repr()
      ensures Valid()
      ensures Performs(AddFieldSpec(old(View()), id, bytes), r, old(View()), View())
    {
      if id % 2 == 0 {
        r := AddFieldName(bytes);
      } else {
        r := AddFieldType(bytes);
      }
    }

    method AddFieldName(bytes: seq<byte>) returns (r: Result<byte>)
      requires Valid()
      modifies Repr()
      ensures Valid()
      ensures Performs(FieldNameSpec(old(View()), bytes), r, old(View()), View())
    {
      var fieldName :- Alphabet.BytesToString(bytes);
      if tables == [] {
        return Err(NoTable);
      }
      var table := tables[|tables| - 1];
      if fieldName in table.fieldNames {
        return Err(DuplicateFieldName);
      }
      table.fieldNames := table.fieldNames + [fieldName];
      LastChanged(old(View()));
      r := Ok(0);
    }

    method AddFieldType(bytes: seq<byte>) returns (r: Result<byte>)
      requires Valid()
      modifies Repr()
      ensures Valid()
      ensures Performs(FieldTypeSpec(old(View()), bytes), r, old(View()), View())
    {
      if |bytes| != 1 {
        return Err(InvalidTypeByte);
      }
      var index := (bytes[0] as int - CommandCount) % 256;
      if tables == [] {
        return Err(NoTable);
      }
      var table := tables[|tables| - 1];
      if index >= |TypeMap| {
        return Err(UnknownType);
      }
      table.fieldTypes := table.fieldTypes + [TypeMap[index]];
      LastChanged(old(View()));
      r := Ok(0);
    }

    method AddRecord(id: byte, bytes: seq<byte>) returns (r: Result<byte>)
      requires Valid()
      modifies Repr()
      ensures Valid()
      ensures Performs(AddRecordSpec(old(View()), id, bytes), r, old(View()), View())
    {
      ghost var before := View();
      if tables == [] {
        return Err(NoTable);
      }
      var table := tables[|tables| - 1];
      ghost var last := table.Snapshot();
      assert LastTable(before) == Ok(last);
      if id as int > |table.fieldNames| {
        return Err(ByteOverflow);
      }
      if id as int >= |table.fieldTypes| {
        return Err(NoColumnType);
      }
      var dataType := table.fieldTypes[id];
      var decoded := DecodeValueOf(dataType, bytes);
      if decoded.Err? {
        assert AddRecordSpec(before, id, bytes) == Err(decoded.error);
        return Err(decoded.error);
      }
      var instance := decoded.value;
      ghost var records := if id == 0 then last.records + [[]] else last.records;
      if id == 0 {
        table.CreateRecord();
      }
      var added := table.AddRecordValue(instance);
      if added.Err? {
        assert AddRecordSpec(before, id, bytes) == Err(NoRecord);
        return Err(added.error);
      }
      assert table.Snapshot() == last.(records := AppendToLast(records, instance));
      assert forall i :: 0 <= i < |tables| - 1 ==> before.tables[i] == tables[i].Snapshot() by {
        forall i | 0 <= i < |tables| - 1 ensures before.tables[i] == tables[i].Snapshot() {
          assert tables[i] != table;
        }
      }
      LastChanged(before);
      assert AddRecordSpec(before, id, bytes) == Ok((WithLast(before, table.Snapshot()), NextColumnHint(last, id)));
      r := Ok(NextColumnHint(table.Snapshot(), id));
    }

    /** One table object was appended and nothing else changed. */
    lemma Appended(before: StoreValue)
      requires tables != [] && |before.tables| + 1 == |tables|
      requires forall i :: 0 <= i < |before.tables| ==> before.tables[i] == tables[i].Snapshot()
      ensures View().tables == before.tables + [tables[|tables| - 1].Snapshot()]
    {
    }

    /** Only the last table object changed: the view differs from before only in its last table. */
    lemma LastChanged(before: StoreValue)
      requires Valid() && tables != [] && |before.tables| == |tables|
      requires before.tableNames == tableNames
      requires forall i :: 0 <= i < |tables| - 1 ==> before.tables[i] == tables[i].Snapshot()
      ensures View() == WithLast(before, tables[|tables| - 1].Snapshot())
    {
    }
  }

  /** CreateTable on a name written in the alphabet appends exactly one empty table of that name. */
  lemma CreateTableAppends(s: StoreValue, name: string)
    requires Alphabet.InAlphabet(name)
    ensures CreateTableSpec(s, Alphabet.EncodeString(name))
         == Ok((StoreValue(s.tables + [NewTable(name)], s.tableNames + [name]), 0))
  {
    Alphabet.DecodeEncode(name);
  }

  /** CreateTable fails, changing nothing, exactly when the payload has a non-literal byte. */
  lemma CreateTableFails(s: StoreValue, bytes: seq<byte>)
    ensures CreateTableSpec(s, bytes).Err? <==> exists i :: 0 <= i < |bytes| && !Alphabet.IsLiteral(bytes[i])
  {
    Alphabet.DecodeBytesAt(bytes);
  }

  /**
   * AddField on an even index with an encoded name: fails on a duplicate,
   * otherwise appends exactly that name to the last table.
   */
  lemma FieldNameAppends(s: StoreValue, id: byte, name: string)
    requires id % 2 == 0 && s.tables != [] && Alphabet.InAlphabet(name)
    ensures var last := s.tables[|s.tables| - 1];
            AddFieldSpec(s, id, Alphabet.EncodeString(name))
            == (if name in last.fieldNames then Err(DuplicateFieldName)
                else Ok((WithLast(s, last.(fieldNames := last.fieldNames + [name])), 0)))
  {
    Alphabet.DecodeEncode(name);
  }

  /** TypeToBytes and AddField agree: on an odd index the type code of t appends exactly t. */
  lemma FieldTypeAgrees(s: StoreValue, id: byte, t: ValueType)
    requires id % 2 == 1 && s.tables != []
    ensures var last := s.tables[|s.tables| - 1];
            AddFieldSpec(s, id, TypeToBytes(t)) == Ok((WithLast(s, last.(fieldTypes := last.fieldTypes + [t])), 0))
  {}

  /** AddField on an odd index takes exactly one byte, and only a type code 7 or 8. */
  lemma FieldTypeBytes(s: StoreValue, id: byte, bytes: seq<byte>)
    requires id % 2 == 1
    ensures |bytes| != 1 ==> AddFieldSpec(s, id, bytes) == Err(InvalidTypeByte)
    ensures |bytes| == 1 && s.tables != [] ==>
              (AddFieldSpec(s, id, bytes).Ok? <==> CommandCount <= bytes[0] as int < CommandCount + |TypeMap|)
  {}

  /** The same table with one more field name or one more field type, and nothing else changed. */
  predicate OneMoreField(t: TableValue, t': TableValue) {
    var names, types := |t.fieldNames|, |t.fieldTypes|;
    t'.name == t.name && t'.records == t.records &&
    ((|t'.fieldNames| == names + 1 && t'.fieldNames[..names] == t.fieldNames &&
      t'.fieldNames[names] !in t.fieldNames && t'.fieldTypes == t.fieldTypes) ||
     (|t'.fieldTypes| == types + 1 && t'.fieldTypes[..types] == t.fieldTypes && t'.fieldNames == t.fieldNames))
  }

  /** AddField always returns 0 and changes only the last table, by one field name or one field type. */
  lemma AddFieldEffect(s: StoreValue, id: byte, bytes: seq<byte>)
    requires AddFieldSpec(s, id, bytes).Ok?
    ensures var (s', hint) := AddFieldSpec(s, id, bytes).value;
            hint == 0 && s'.tableNames == s.tableNames && s.tables != [] &&
            |s'.tables| == |s.tables| && s'.tables[..|s.tables| - 1] == s.tables[..|s.tables| - 1] &&
            OneMoreField(s.tables[|s.tables| - 1], s'.tables[|s.tables| - 1])
  {}

  /** AddRecord rejects a field index above the field count, or one with no declared type. */
  lemma AddRecordRejects(s: StoreValue, id: byte, bytes: seq<byte>)
    requires s.tables != []
    ensures var last := s.tables[|s.tables| - 1];
            (id as int > |last.fieldNames| ==> AddRecordSpec(s, id, bytes) == Err(ByteOverflow)) &&
            (id as int <= |last.fieldNames| && id as int >= |last.fieldTypes| ==>
               AddRecordSpec(s, id, bytes) == Err(NoColumnType))
  {}

  /**
   * A successful AddRecord appends the decoded value to the last record (to a
   * new record when id is 0) and returns 4 exactly when the next column is an
   * Integer, 0 otherwise.
   */
  lemma AddRecordEffect(s: StoreValue, id: byte, bytes: seq<byte>)
    requires AddRecordSpec(s, id, bytes).Ok?
    ensures s.tables != []
    ensures var last := s.tables[|s.tables| - 1];
            var (s', hint) := AddRecordSpec(s, id, bytes).value;
            id as int < |last.fieldTypes| &&
            var v := DecodeValue(last.fieldTypes[id], bytes).value;
            TypeOf(v) == last.fieldTypes[id] &&
            s' == WithLast(s, last.(records := if id == 0 then last.records + [[v]]
                                               else AppendToLast(last.records, v))) &&
            (hint == 4 <==> id as int + 1 < |last.fieldTypes| && last.fieldTypes[id as int + 1] == IntegerType) &&
            (hint == 0 || hint == 4)
  {
    var last := s.tables[|s.tables| - 1];
    var v := DecodeValue(last.fieldTypes[id], bytes).value;
    if id == 0 {
      AppendToRecord(last.records, [], v);
      assert [] + [v] == [v];
    }
  }

  /** AddRecord on field index k with the encoding of v, keeping only the new store. */
  function FeedValue(s: StoreValue, k: nat, v: Value): Result<StoreValue>
    requires k < 256
  {
    var step :- AddRecordSpec(s, k as byte, EncodeValue(v));
    Ok(step.0)
  }

  /**
   * AddRecord called with field index 0, 1, ... on the encodings of the
   * values vs: the payloads a writer emits for one row.
   */
  function FeedRow(s: StoreValue, vs: seq<Value>): Result<StoreValue>
    requires |vs| <= 256
  {
    if vs == [] then Ok(s)
    else
      var n := |vs| - 1;
      var s1 :- FeedRow(s, vs[..n]);
      FeedValue(s1, n, vs[n])
  }

  /** The values fit the table's declared columns, in order, and each can be encoded. */
  predicate FitsColumns(t: TableValue, vs: seq<Value>) {
    |vs| <= |t.fieldNames| && |vs| <= |t.fieldTypes| &&
    (vs == [] ||
     (FitsColumns(t, vs[..|vs| - 1]) && TypeOf(vs[|vs| - 1]) == t.fieldTypes[|vs| - 1] && Encodable(vs[|vs| - 1])))
  }

  /** Adding v to the record r at the end extends r by v and leaves the earlier records alone. */
  lemma AppendToRecord(records: seq<seq<Value>>, r: seq<Value>, v: Value)
    ensures AppendToLast(records + [r], v) == records + [r + [v]]
  {
    var rs := records + [r];
    assert rs[..|rs| - 1] == records;
  }

  /** Replacing the last table twice keeps only the second replacement. */
  lemma WithLastTwice(s: StoreValue, t: TableValue, t': TableValue)
    requires s.tables != []
    ensures WithLast(s, t).tables != [] && WithLast(s, t).tables[|s.tables| - 1] == t
    ensures WithLast(WithLast(s, t), t') == WithLast(s, t')
  {
    assert WithLast(s, t).tables[..|s.tables| - 1] == s.tables[..|s.tables| - 1];
  }

  /** AddRecord on the encoding of a value that fits column id adds that value to the record. */
  lemma AddRecordValueStep(s: StoreValue, id: byte, v: Value)
    requires s.tables != []
    requires var last := s.tables[|s.tables| - 1];
             id as int <= |last.fieldNames| && id as int < |last.fieldTypes| &&
             TypeOf(v) == last.fieldTypes[id] && Encodable(v) && (id == 0 || last.records != [])
    ensures var last := s.tables[|s.tables| - 1];
            var records := if id == 0 then last.records + [[v]] else AppendToLast(last.records, v);
            AddRecordSpec(s, id, EncodeValue(v)) == Ok((WithLast(s, last.(records := records)), NextColumnHint(last, id)))
  {
    ValueRoundTrip(v);
    var last := s.tables[|s.tables| - 1];
    assert LastTable(s) == Ok(last);
    assert DecodeValue(last.fieldTypes[id], EncodeValue(v)) == Ok(v);
    AppendToRecord(last.records, [], v);
    assert [] + [v] == [v];
  }

  /** One more value on the right of FeedRow is one more AddRecord call. */
  lemma FeedRowSnoc(s: StoreValue, vs: seq<Value>, n: nat, s1: StoreValue, s2: StoreValue, hint: byte)
    requires |vs| == n + 1 <= 256
    requires FeedRow(s, vs[..n]) == Ok(s1)
    requires AddRecordSpec(s1, n as byte, EncodeValue(vs[n])) == Ok((s2, hint))
    ensures FeedRow(s, vs) == Ok(s2)
  {
    assert FeedValue(s1, n, vs[n]) == Ok(s2);
  }

  /** The first value of a row starts a new record holding just that value. */
  lemma RecordFirstValue(s: StoreValue, vs: seq<Value>)
    requires s.tables != [] && |vs| == 1
    requires FitsColumns(s.tables[|s.tables| - 1], vs)
    ensures var last := s.tables[|s.tables| - 1];
            FeedRow(s, vs) == Ok(WithLast(s, last.(records := last.records + [vs])))
  {
    var last := s.tables[|s.tables| - 1];
    assert vs[..0] == [];
    AddRecordValueStep(s, 0, vs[0]);
    assert [vs[0]] == vs;
    FeedRowSnoc(s, vs, 0, s, WithLast(s, last.(records := last.records + [vs])), NextColumnHint(last, 0));
  }

  /** A sequence is its front followed by its last element. */
  lemma FrontAndLast<T>(xs: seq<T>)
    requires xs != []
    ensures xs[..|xs| - 1] + [xs[|xs| - 1]] == xs
  {}

  /** A value for column k > 0 on a store whose last table is t lands at the end of t's last record. */
  lemma ValueOnLast(s: StoreValue, t: TableValue, k: nat, v: Value)
    requires s.tables != [] && 0 < k < 256 && t.records != []
    requires k <= |t.fieldNames| && k < |t.fieldTypes| && TypeOf(v) == t.fieldTypes[k] && Encodable(v)
    ensures AddRecordSpec(WithLast(s, t), k as byte, EncodeValue(v))
            == Ok((WithLast(s, t.(records := AppendToLast(t.records, v))), NextColumnHint(t, k as byte)))
  {
    WithLastTwice(s, t, t.(records := AppendToLast(t.records, v)));
    AddRecordValueStep(WithLast(s, t), k as byte, v);
  }

  /** The record started by the front of vs, extended by the last value of vs, is vs. */
  lemma RowCompleted(s: StoreValue, vs: seq<Value>)
    requires s.tables != [] && 1 < |vs| <= 256
    requires FitsColumns(s.tables[|s.tables| - 1], vs)
    ensures var last := s.tables[|s.tables| - 1];
            var n := |vs| - 1;
            var last1 := last.(records := last.records + [vs[..n]]);
            AddRecordSpec(WithLast(s, last1), n as byte, EncodeValue(vs[n]))
            == Ok((WithLast(s, last.(records := last.records + [vs])), NextColumnHint(last1, n as byte)))
  {
    var last := s.tables[|s.tables| - 1];
    var n := |vs| - 1;
    var last1 := last.(records := last.records + [vs[..n]]);
    ValueOnLast(s, last1, n, vs[n]);
    AppendToRecord(last.records, vs[..n], vs[n]);
    FrontAndLast(vs);
  }

  /** A later value of a row extends the record its earlier values started. */
  lemma RecordNextValue(s: StoreValue, vs: seq<Value>)
    requires s.tables != [] && 1 < |vs| <= 256
    requires FitsColumns(s.tables[|s.tables| - 1], vs)
    requires var last := s.tables[|s.tables| - 1];
             FeedRow(s, vs[..|vs| - 1]) == Ok(WithLast(s, last.(records := last.records + [vs[..|vs| - 1]])))
    ensures var last := s.tables[|s.tables| - 1];
            FeedRow(s, vs) == Ok(WithLast(s, last.(records := last.records + [vs])))
  {
    var last := s.tables[|s.tables| - 1];
    var n := |vs| - 1;
    var last1 := last.(records := last.records + [vs[..n]]);
    RowCompleted(s, vs);
    FeedRowSnoc(s, vs, n, WithLast(s, last1), WithLast(s, last.(records := last.records + [vs])),
                NextColumnHint(last1, n as byte));
  }

  /**
   * Feeding the encodings of values for columns 0, 1, ... in order yields one
   * new record holding exactly those values, in that order.
   */
  lemma {:induction false} RecordInColumnOrder(s: StoreValue, vs: seq<Value>)
    requires s.tables != [] && 0 < |vs| <= 256
    requires FitsColumns(s.tables[|s.tables| - 1], vs)
    ensures var last := s.tables[|s.tables| - 1];
            FeedRow(s, vs) == Ok(WithLast(s, last.(records := last.records + [vs])))
  {
    if |vs| == 1 {
      RecordFirstValue(s, vs);
    } else {
      RecordInColumnOrder(s, vs[..|vs| - 1]);
      RecordNextValue(s, vs);
    }
  }

  /** The k-th field of a block: AddField with index 2k on its name, then 2k+1 on its type code. */
  function DefinePair(s: StoreValue, k: nat, name: string, t: ValueType): Result<StoreValue>
    requires k < 128
  {
    var named :- AddFieldSpec(s, (2 * k) as byte, Alphabet.EncodeString(name));
    var typed :- AddFieldSpec(named.0, (2 * k + 1) as byte, TypeToBytes(t));
    Ok(typed.0)
  }

  /** AddField called with field index 0, 1, ...: a name, then its type code, for each field. */
  function DefineFields(s: StoreValue, names: seq<string>, types: seq<ValueType>): Result<StoreValue>
    requires |names| == |types| <= 128
  {
    if names == [] then Ok(s)
    else
      var n := |names| - 1;
      var s1 :- DefineFields(s, names[..n], types[..n]);
      DefinePair(s1, n, names[n], types[n])
  }

  /** One more name/type pair on the right of DefineFields is two more AddField calls. */
  lemma DefineFieldsSnoc(s: StoreValue, names: seq<string>, types: seq<ValueType>, n: nat,
                         s1: StoreValue, s2: StoreValue, s3: StoreValue)
    requires |names| == |types| == n + 1 <= 128
    requires DefineFields(s, names[..n], types[..n]) == Ok(s1)
    requires AddFieldSpec(s1, (2 * n) as byte, Alphabet.EncodeString(names[n])) == Ok((s2, 0))
    requires AddFieldSpec(s2, (2 * n + 1) as byte, TypeToBytes(types[n])) == Ok((s3, 0))
    ensures DefineFields(s, names, types) == Ok(s3)
  {
    assert DefinePair(s1, n, names[n], types[n]) == Ok(s3);
  }

  /** Names in the alphabet, no two alike. */
  predicate DistinctNames(names: seq<string>) {
    (forall i :: 0 <= i < |names| ==> Alphabet.InAlphabet(names[i])) &&
    (forall i, j :: 0 <= i < j < |names| ==> names[i] != names[j])
  }

  /** A new field name on a store whose last table is t lands at the end of t's names. */
  lemma NameOnLast(s: StoreValue, t: TableValue, k: nat, name: string)
    requires k < 128 && s.tables != [] && Alphabet.InAlphabet(name) && name !in t.fieldNames
    ensures AddFieldSpec(WithLast(s, t), (2 * k) as byte, Alphabet.EncodeString(name))
            == Ok((WithLast(s, t.(fieldNames := t.fieldNames + [name])), 0))
  {
    WithLastTwice(s, t, t.(fieldNames := t.fieldNames + [name]));
    FieldNameAppends(WithLast(s, t), (2 * k) as byte, name);
  }

  /** A type code on a store whose last table is t lands at the end of t's types. */
  lemma TypeOnLast(s: StoreValue, t: TableValue, k: nat, ty: ValueType)
    requires k < 128 && s.tables != []
    ensures AddFieldSpec(WithLast(s, t), (2 * k + 1) as byte, TypeToBytes(ty))
            == Ok((WithLast(s, t.(fieldTypes := t.fieldTypes + [ty])), 0))
  {
    WithLastTwice(s, t, t.(fieldTypes := t.fieldTypes + [ty]));
    FieldTypeAgrees(WithLast(s, t), (2 * k + 1) as byte, ty);
  }

  /** The last of distinct names is not among the ones before it. */
  lemma LastNameNew(names: seq<string>)
    requires names != [] && DistinctNames(names)
    ensures Alphabet.InAlphabet(names[|names| - 1]) && names[|names| - 1] !in names[..|names| - 1]
  {}

  /** The last name/type pair of a block lands after the pairs before it. */
  lemma FieldBlockNext(s: StoreValue, names: seq<string>, types: seq<ValueType>)
    requires s.tables != [] && 0 < |names| == |types| <= 128
    requires DistinctNames(names)
    requires var last := s.tables[|s.tables| - 1];
             var n := |names| - 1;
             DefineFields(s, names[..n], types[..n]) == Ok(WithLast(s, last.(fieldNames := names[..n], fieldTypes := types[..n])))
    ensures var last := s.tables[|s.tables| - 1];
            DefineFields(s, names, types) == Ok(WithLast(s, last.(fieldNames := names, fieldTypes := types)))
  {
    var last := s.tables[|s.tables| - 1];
    var n := |names| - 1;
    var last1 := last.(fieldNames := names[..n], fieldTypes := types[..n]);
    LastNameNew(names);
    NameOnLast(s, last1, n, names[n]);
    FrontAndLast(names);
    var last2 := last1.(fieldNames := names);
    TypeOnLast(s, last2, n, types[n]);
    FrontAndLast(types);
    assert last2.(fieldTypes := last2.fieldTypes + [types[n]]) == last.(fieldNames := names, fieldTypes := types);
    DefineFieldsSnoc(s, names, types, n, WithLast(s, last1), WithLast(s, last2),
                     WithLast(s, last.(fieldNames := names, fieldTypes := types)));
  }

  /**
   * A block of k name/type pairs with distinct names, on a table without
   * fields, leaves that table with exactly those k names and k types.
   */
  lemma {:induction false} FieldBlock(s: StoreValue, names: seq<string>, types: seq<ValueType>)
    requires s.tables != [] && |names| == |types| <= 128
    requires s.tables[|s.tables| - 1].fieldNames == [] && s.tables[|s.tables| - 1].fieldTypes == []
    requires DistinctNames(names)
    ensures var last := s.tables[|s.tables| - 1];
            DefineFields(s, names, types) == Ok(WithLast(s, last.(fieldNames := names, fieldTypes := types)))
  {
    var last := s.tables[|s.tables| - 1];
    if names == [] {
      assert last.(fieldNames := names, fieldTypes := types) == last;
      assert WithLast(s, last) == s by { FrontAndLast(s.tables); }
    } else {
      var n := |names| - 1;
      assert DistinctNames(names[..n]);
      FieldBlock(s, names[..n], types[..n]);
      FieldBlockNext(s, names, types);
    }
  }

  // The store only grows

  /**
   * t' grows t by appending only: the name is kept, field names and field
   * types only gain entries at the end, every record but the last is
   * unchanged, and the last record only gains values at its end.
   */
  predicate Grows(t: TableValue, t': TableValue) {
    t'.name == t.name && t.fieldNames <= t'.fieldNames && t.fieldTypes <= t'.fieldTypes &&
    |t.records| <= |t'.records| &&
    (forall i :: 0 <= i < |t.records| - 1 ==> t'.records[i] == t.records[i]) &&
    (t.records != [] ==> t.records[|t.records| - 1] <= t'.records[|t.records| - 1])
  }

  /**
   * s' extends s: no table or table name is removed or reordered, every table
   * but the last is unchanged, and the last only grows.
   */
  predicate Extends(s: StoreValue, s': StoreValue) {
    |s.tables| <= |s'.tables| && |s.tableNames| <= |s'.tableNames| &&
    s'.tableNames[..|s.tableNames|] == s.tableNames &&
    (forall i :: 0 <= i < |s.tables| - 1 ==> s'.tables[i] == s.tables[i]) &&
    (s.tables != [] ==> Grows(s.tables[|s.tables| - 1], s'.tables[|s.tables| - 1]))
  }

  lemma GrowsTransitive(t: TableValue, t': TableValue, t'': TableValue)
    requires Grows(t, t') && Grows(t', t'')
    ensures Grows(t, t'')
  {
    if t.records != [] {
      var k := |t.records| - 1;
      if k < |t'.records| - 1 {
        assert t''.records[k] == t'.records[k];
      }
    }
  }

  /** TableNames lists the tables' names, in order. */
  predicate Aligned(s: StoreValue) {
    |s.tables| == |s.tableNames| && forall i :: 0 <= i < |s.tables| ==> s.tables[i].name == s.tableNames[i]
  }

  /** No table has the same field name twice, as AddField's duplicate check keeps. */
  predicate UniqueFieldNames(s: StoreValue) {
    forall k, i, j :: 0 <= k < |s.tables| && 0 <= i < j < |s.tables[k].fieldNames| ==>
      s.tables[k].fieldNames[i] != s.tables[k].fieldNames[j]
  }

  lemma ExtendsTransitive(s: StoreValue, s': StoreValue, s'': StoreValue)
    requires Extends(s, s') && Extends(s', s'')
    ensures Extends(s, s'')
  {
    assert s''.tableNames[..|s.tableNames|] == s'.tableNames[..|s'.tableNames|][..|s.tableNames|];
    if s.tables != [] {
      var k := |s.tables| - 1;
      if k < |s'.tables| - 1 {
        assert s''.tables[k] == s'.tables[k];
      } else {
        GrowsTransitive(s.tables[k], s'.tables[k], s''.tables[k]);
      }
    }
  }

  /** A successful CreateTable extends the store, keeps TableNames in line with the tables and keeps field names unique. */
  lemma CreateTableExtends(s: StoreValue, bytes: seq<byte>)
    requires CreateTableSpec(s, bytes).Ok?
    ensures var s' := CreateTableSpec(s, bytes).value.0;
            Extends(s, s') && (Aligned(s) ==> Aligned(s')) && (UniqueFieldNames(s) ==> UniqueFieldNames(s'))
  {
    var s' := CreateTableSpec(s, bytes).value.0;
    assert s'.tableNames[..|s.tableNames|] == s.tableNames;
  }

  /** A successful AddField extends the store, keeps TableNames in line with the tables and keeps field names unique. */
  lemma AddFieldExtends(s: StoreValue, id: byte, bytes: seq<byte>)
    requires AddFieldSpec(s, id, bytes).Ok?
    ensures var s' := AddFieldSpec(s, id, bytes).value.0;
            Extends(s, s') && (Aligned(s) ==> Aligned(s')) && (UniqueFieldNames(s) ==> UniqueFieldNames(s'))
  {}

  /** A successful AddRecord extends the store, keeps TableNames in line with the tables and keeps field names unique. */
  lemma AddRecordExtends(s: StoreValue, id: byte, bytes: seq<byte>)
    requires AddRecordSpec(s, id, bytes).Ok?
    ensures var s' := AddRecordSpec(s, id, bytes).value.0;
            Extends(s, s') && (Aligned(s) ==> Aligned(s')) && (UniqueFieldNames(s) ==> UniqueFieldNames(s'))
  {}

  /** The Data setter reached through Activator.CreateInstance, as a method. */
  method DecodeValueOf(t: ValueType, bytes: seq<byte>) returns (r: Result<Value>)
    ensures r == DecodeValue(t, bytes)
  {
    match t
    case TextType =>
      var s :- Alphabet.BytesToString(bytes);
      r := Ok(Text(s));
    case IntegerType =>
      var z :- BytesToInteger(bytes);
      r := Ok(Integer(z));
  }
}
