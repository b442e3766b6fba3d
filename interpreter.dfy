/**
 * The byte interpreter of ProcessBytesFrom: opcodes select a handler, literal
 * bytes fill the register, and a control marker (End or Split) calls the
 * selected handler on the register. OpenFile runs a fresh interpreter over
 * another file against the same store.
 */
module Interpreter {
  import opened Common
  import opened Values
  import opened Tables
  import Alphabet
  import opened Printing

  /** The handlers a non-marker opcode selects. */
  datatype Handler = CreateTable | AddField | AddRecord | OpenFile | Ignore

  /** What CommandMap[b]() yields: a control marker (isEmpty) or a handler. */
  datatype Opcode = End | Split | Select(handler: Handler)

  const CommandMap: seq<Opcode> :=
    [End, Split, Select(CreateTable), Select(AddField), Select(AddRecord), Select(OpenFile), Select(Ignore)]

  /** The interpreter's four variables: register, count, ignoreCount and current. */
  datatype Machine = Machine(register: seq<byte>, count: byte, ignoreCount: byte, current: Option<Handler>)

  const Initial: Machine := Machine([], 0, 0, None)

  /** The files File.ReadAllBytes can read, by name. */
  type FileSystem = map<string, seq<byte>>

  /** The end of an operation on the store: done with a value, or aborted by an exception. */
  datatype Outcome<T> = Done(store: StoreValue, value: T) | Aborted(store: StoreValue, error: Error)

  /** The Ignore handler: one payload byte, minus the opcode count, wrapped to a byte. */
  function IgnoreSpec(bytes: seq<byte>): (r: Result<byte>)
    ensures |bytes| > 1 ==> r == Err(InvalidIgnoreByte)
    ensures |bytes| == 0 ==> r == Err(EmptyIgnorePayload)
    ensures |bytes| == 1 ==> r.Ok? && (r.value as int + CommandCount) % 256 == bytes[0] as int
  {
    if |bytes| > 1 then Err(InvalidIgnoreByte)
    else if |bytes| == 0 then Err(EmptyIgnorePayload)
    else Ok(((bytes[0] as int - CommandCount) % 256) as byte)
  }

  function FromResult(s: StoreValue, r: Result<(StoreValue, byte)>): Outcome<byte> {
    match r
    case Ok((s', hint)) => Done(s', hint)
    case Err(e) => Aborted(s, e)
  }

  /** Calling handler h as callback(id, payload); the result is the skip hint. */
  function Dispatch(h: Handler, s: StoreValue, id: byte, payload: seq<byte>, fs: FileSystem, depth: nat): Outcome<byte>
    decreases depth, 0
  {
    match h
    case CreateTable => FromResult(s, CreateTableSpec(s, payload))
    case AddField => FromResult(s, AddFieldSpec(s, id, payload))
    case AddRecord => FromResult(s, AddRecordSpec(s, id, payload))
    case Ignore =>
      (match IgnoreSpec(payload)
       case Ok(n) => Done(s, n)
       case Err(e) => Aborted(s, e))
    case OpenFile =>
      match Alphabet.DecodeBytes(payload)
      case Err(e) => Aborted(s, e)
      case Ok(name) =>
        if depth == 0 then Aborted(s, RecursionLimit)
        else
          match ProcessFile(s, name, fs, depth - 1)
          case Done(s', _) => Done(s', 0)
          case Aborted(s', e) => Aborted(s', e)
  }

  /** One iteration of the loop of ProcessBytesFrom. */
  function Transition(m: Machine, s: StoreValue, b: byte, fs: FileSystem, depth: nat): Outcome<Machine>
    decreases depth, 1
  {
    if (b as int) < CommandCount && m.ignoreCount == 0 then
      match CommandMap[b]
      case Select(h) => Done(s, m.(current := Some(h)))
      case _ =>
        match m.current
        case None => Aborted(s, NoProcessor)
        case Some(h) =>
          match Dispatch(h, s, m.count, m.register, fs, depth)
          case Aborted(s', e) => Aborted(s', e)
          case Done(s', hint) =>
            var count := if b == 0 then 0 else ((m.count as int + 1) % 256) as byte;
            Done(s', m.(register := [], ignoreCount := hint, count := count))
    else
      var ignoreCount := if m.ignoreCount > 0 then m.ignoreCount - 1 else 0;
      Done(s, m.(register := m.register + [b], ignoreCount := ignoreCount))
  }

  /** The whole loop over a byte sequence, stopping at the first exception. */
  function RunBytes(m: Machine, s: StoreValue, bytes: seq<byte>, fs: FileSystem, depth: nat): Outcome<Machine>
    decreases depth, 2, |bytes|
  {
    if bytes == [] then Done(s, m)
    else
      match Transition(m, s, bytes[0], fs, depth)
      case Aborted(s', e) => Aborted(s', e)
      case Done(s', m') => RunBytes(m', s', bytes[1..], fs, depth)
  }

  /**
   * ProcessBytesFrom(fileName): read the file, run a fresh interpreter over
   * it, then print every table of the store, which throws when one has no
   * field names.
   */
  function ProcessFile(s: StoreValue, fileName: string, fs: FileSystem, depth: nat): Outcome<Machine>
    decreases depth, 3
  {
    if fileName !in fs then Aborted(s, FileNotFound)
    else
      match RunBytes(Initial, s, fs[fileName], fs, depth)
      case Aborted(s', e) => Aborted(s', e)
      case Done(s', m) => if Unprintable(s') then Aborted(s', NegativePadding) else Done(s', m)
  }

  /** A method ended with failure, machine m and store s, as the outcome o says. */
  predicate Reached(o: Outcome<Machine>, failure: Option<Error>, m: Machine, s: StoreValue) {
    match o
    case Done(s', m') => failure == None && m == m' && s == s'
    case Aborted(s', e) => failure == Some(e) && s == s'
  }

  /** A method ended with failure and store s, as the outcome o says; its other result is not compared. */
  predicate Ended<T>(o: Outcome<T>, failure: Option<Error>, s: StoreValue) {
    match o
    case Done(s', _) => failure == None && s == s'
    case Aborted(s', e) => failure == Some(e) && s == s'
  }

  /** A handler callback returned r and left store s, as the outcome o says. */
  predicate Yields(o: Outcome<byte>, r: Result<byte>, s: StoreValue) {
    match o
    case Done(s', hint) => r == Ok(hint) && s == s'
    case Aborted(s', e) => r == Err(e) && s == s'
  }

  /** Every table object of the store is one it had before or a new one. */
  twostate predicate Grown(store: Store, before: seq<Table>)
    reads store
  {
    forall t :: t in store.tables ==> t in before || fresh(t)
  }

  /** Calls the selected handler's callback on the store. */
  method Invoke(store: Store, h: Handler, id: byte, payload: seq<byte>, fs: FileSystem, depth: nat)
    returns (r: Result<byte>)
    requires store.Valid()
    modifies store, store.Repr()
    decreases depth, 0
    ensures store.Valid()
    ensures Grown(store, old(store.tables))
    ensures Yields(Dispatch(h, old(store.View()), id, payload, fs, depth), r, store.View())
  {
    match h
    case CreateTable =>
      r := store.CreateTable(payload);
    case AddField =>
      r := store.AddField(id, payload);
    case AddRecord =>
      r := store.AddRecord(id, payload);
    case Ignore =>
      r := IgnoreSpec(payload);
    case OpenFile =>
      var name :- Alphabet.BytesToString(payload);
      if depth == 0 {
        return Err(RecursionLimit);
      }
      var failure := ProcessBytesFrom(store, name, fs, depth - 1);
      if failure.Some? {
        return Err(failure.value);
      }
      r := Ok(0);
  }

  /** The state of one pass of ProcessBytesFrom. */
  class Interpreter {
    var register: seq<byte>
    var count: byte
    var ignoreCount: byte
    var current: Option<Handler>
    const store: Store

    function State(): Machine
      reads this
    {
      Machine(register, count, ignoreCount, current)
    }

    constructor (store: Store)
      ensures this.store == store && State() == Initial
    {
      this.store := store;
      register := [];
      count := 0;
      ignoreCount := 0;
      current := None;
    }

    /** Consumes one byte of the file. */
    method Step(b: byte, fs: FileSystem, depth: nat) returns (failure: Option<Error>)
      requires store.Valid()
      modifies this, store, store.Repr()
      decreases depth, 1, 1
      ensures store.Valid()
      ensures Grown(store, old(store.tables))
      ensures Reached(Transition(old(State()), old(store.View()), b, fs, depth), failure, State(), store.View())
    {
      if (b as int) < CommandCount && ignoreCount == 0 {
        var x := CommandMap[b];
        if x.End? || x.Split? {
          failure := Fire(b, fs, depth);
          return;
        }
        current := Some(x.handler);
      } else {
        if ignoreCount > 0 {
          ignoreCount := ignoreCount - 1;
        }
        register := register + [b];
      }
      failure := None;
    }

    /**
     * A control marker (0 or 1) outside an ignored stretch: the current
     * handler consumes the register, its hint becomes ignoreCount, and the
     * count is reset (0) or advanced modulo 256 (1).
     */
    method Fire(b: byte, fs: FileSystem, depth: nat) returns (failure: Option<Error>)
      requires store.Valid()
      requires (b == 0 || b == 1) && ignoreCount == 0
      modifies this, store, store.Repr()
      decreases depth, 1, 0
      ensures store.Valid()
      ensures Grown(store, old(store.tables))
      ensures Reached(Transition(old(State()), old(store.View()), b, fs, depth), failure, State(), store.View())
    {
      ghost var m := State();
      ghost var s := store.View();
      MarkerFires(m, s, b, fs, depth);
      if current.None? {
        return Some(NoProcessor);
      }
      var hint := Invoke(store, current.value, count, register, fs, depth);
      if hint.Err? {
        return Some(hint.error);
      }
      assert Dispatch(m.current.value, s, m.count, m.register, fs, depth) == Done(store.View(), hint.value);
      Resume(b, hint.value);
      failure := None;
    }

    /** After the callback: the register is cleared and the hint becomes ignoreCount. */
    method Resume(b: byte, hint: byte)
      modifies this
      ensures State() == Machine([], if b == 0 then 0 else ((old(count) as int + 1) % 256) as byte, hint, old(current))
    {
      ignoreCount := hint;
      register := [];
      if b == 0 {
        count := 0;
      } else {
        count := ((count as int + 1) % 256) as byte;
      }
    }

    /** The foreach loop over the file's bytes. */
    method Run(bytes: seq<byte>, fs: FileSystem, depth: nat) returns (failure: Option<Error>)
      requires store.Valid()
      modifies this, store, store.Repr()
      decreases depth, 2
      ensures store.Valid()
      ensures Grown(store, old(store.tables))
      ensures Reached(RunBytes(old(State()), old(store.View()), bytes, fs, depth), failure, State(), store.View())
    {
      for i := 0 to |bytes|
        invariant store.Valid() && Grown(store, old(store.tables))
        invariant RunBytes(old(State()), old(store.View()), bytes, fs, depth)
               == RunBytes(State(), store.View(), bytes[i..], fs, depth)
      {
        failure := Step(bytes[i], fs, depth);
        if failure.Some? {
          return;
        }
      }
      failure := None;
    }
  }

  /** ProcessBytesFrom: reads a file and runs a fresh interpreter over it against the store. */
  method ProcessBytesFrom(store: Store, fileName: string, fs: FileSystem, depth: nat)
    returns (failure: Option<Error>)
    requires store.Valid()
    modifies store, store.Repr()
    decreases depth, 3
    ensures store.Valid()
    ensures Grown(store, old(store.tables))
    ensures Ended(ProcessFile(old(store.View()), fileName, fs, depth), failure, store.View())
    ensures Extends(old(store.View()), store.View())
    ensures Aligned(old(store.View())) ==> Aligned(store.View())
    ensures UniqueFieldNames(old(store.View())) ==> UniqueFieldNames(store.View())
  {
    ProcessFileExtends(store.View(), fileName, fs, depth);
    if fileName !in fs {
      return Some(FileNotFound);
    }
    var fileBytes := fs[fileName];
    var interpreter := new Interpreter(store);
    failure := interpreter.Run(fileBytes, fs, depth);
    if failure.None? {
      failure := PrintTables(store);
    }
  }

  // Properties of the loop, one byte at a time

  /**
   * A control marker (End or Split) calls the selected handler on the count
   * and the register; the handler's result becomes ignoreCount, the register
   * empties, End resets the count and Split increments it as a byte, and the
   * selected handler stays selected. Without a handler the marker fails.
   */
  lemma MarkerFires(m: Machine, s: StoreValue, b: byte, fs: FileSystem, depth: nat)
    requires (b == 0 || b == 1) && m.ignoreCount == 0
    ensures m.current == None ==> Transition(m, s, b, fs, depth) == Aborted(s, NoProcessor)
    ensures m.current.Some? ==>
              match Dispatch(m.current.value, s, m.count, m.register, fs, depth)
              case Aborted(s', e) => Transition(m, s, b, fs, depth) == Aborted(s', e)
              case Done(s', hint) =>
                var count := if b == 0 then 0 else ((m.count as int + 1) % 256) as byte;
                Transition(m, s, b, fs, depth) == Done(s', Machine([], count, hint, m.current))
  {}

  /** The handler each opcode 2..6 selects, in CommandMap order. */
  const Handlers: seq<Handler> := [CreateTable, AddField, AddRecord, OpenFile, Ignore]

  /**
   * A handler opcode only selects its handler: the register, the count,
   * ignoreCount and the store are untouched, and nothing is called.
   */
  lemma SelectOnly(m: Machine, s: StoreValue, b: byte, fs: FileSystem, depth: nat)
    requires 2 <= b < 7 && m.ignoreCount == 0
    ensures CommandMap[b] == Select(Handlers[b - 2])
    ensures Transition(m, s, b, fs, depth) == Done(s, m.(current := Some(Handlers[b - 2])))
  {}

  /** Exactly the bytes 0 and 1 are control markers; 2..6 select; the rest are data. */
  lemma OpcodeKinds(b: byte)
    ensures b as int < |CommandMap| <==> b as int < CommandCount
    ensures b as int < CommandCount ==> (CommandMap[b].Select? <==> b >= 2)
  {}

  /**
   * A byte that is not an opcode, or that arrives while ignoreCount is
   * positive, goes to the register verbatim and ignoreCount counts down.
   */
  lemma DataByte(m: Machine, s: StoreValue, b: byte, fs: FileSystem, depth: nat)
    requires b as int >= CommandCount || m.ignoreCount > 0
    ensures Transition(m, s, b, fs, depth)
         == Done(s, m.(register := m.register + [b], ignoreCount := if m.ignoreCount > 0 then m.ignoreCount - 1 else 0))
  {}

  // Properties of runs over byte sequences

  /** Running over a single byte is one transition. */
  lemma OneByteRun(m: Machine, s: StoreValue, b: byte, fs: FileSystem, depth: nat)
    ensures RunBytes(m, s, [b], fs, depth) == Transition(m, s, b, fs, depth)
  {
    assert [b][1..] == [];
  }

  /** Running over a + b is running over a, then over b from where a left off. */
  lemma {:induction false} RunConcat(m: Machine, s: StoreValue, a: seq<byte>, b: seq<byte>, fs: FileSystem, depth: nat)
    ensures RunBytes(m, s, a + b, fs, depth)
         == match RunBytes(m, s, a, fs, depth)
            case Aborted(s', e) => Aborted(s', e)
            case Done(s', m') => RunBytes(m', s', b, fs, depth)
    decreases |a|
  {
    if a != [] {
      assert (a + b)[0] == a[0];
      assert (a + b)[1..] == a[1..] + b;
      match Transition(m, s, a[0], fs, depth)
      case Aborted(_, _) =>
      case Done(s1, m1) => RunConcat(m1, s1, a[1..], b, fs, depth);
    } else {
      assert a + b == b;
    }
  }

  /** Byte i of bytes is read as data: it is ignored (i < ignoreCount) or not an opcode. */
  predicate ReadAsData(m: Machine, bytes: seq<byte>) {
    forall i :: 0 <= i < |bytes| ==> i < m.ignoreCount as int || bytes[i] as int >= CommandCount
  }

  /**
   * Bytes read as data reach the register verbatim, in order, even those with
   * opcode values; ignoreCount drops by one per byte down to 0, and nothing
   * else changes.
   */
  lemma {:induction false} DataBytes(m: Machine, s: StoreValue, bytes: seq<byte>, fs: FileSystem, depth: nat)
    requires ReadAsData(m, bytes)
    ensures RunBytes(m, s, bytes, fs, depth)
         == Done(s, m.(register := m.register + bytes,
                       ignoreCount := if |bytes| <= m.ignoreCount as int then m.ignoreCount - |bytes| as byte else 0))
    decreases |bytes|
  {
    if bytes == [] {
      assert m.register + bytes == m.register;
    } else {
      DataByte(m, s, bytes[0], fs, depth);
      var m1 := m.(register := m.register + [bytes[0]], ignoreCount := if m.ignoreCount > 0 then m.ignoreCount - 1 else 0);
      assert ReadAsData(m1, bytes[1..]) by {
        forall i | 0 <= i < |bytes[1..]|
          ensures i < m1.ignoreCount as int || bytes[1..][i] as int >= CommandCount
        {
          assert bytes[1..][i] == bytes[i + 1];
        }
      }
      DataBytes(m1, s, bytes[1..], fs, depth);
      assert m1.register + bytes[1..] == m.register + bytes;
    }
  }

  /** Selecting Ignore, one payload byte n and a Split: Ignore is called on [n] and returns n - 7. */
  lemma EscapeHeader(m: Machine, s: StoreValue, n: byte, fs: FileSystem, depth: nat)
    requires m.ignoreCount == 0 && m.register == [] && n as int >= CommandCount
    ensures RunBytes(m, s, [6, n, 1], fs, depth)
         == Done(s, Machine([], ((m.count as int + 1) % 256) as byte, (n as int - CommandCount) as byte, Some(Ignore)))
  {
    var m1 := m.(current := Some(Ignore));
    var m2 := m1.(register := [n]);
    var m3 := Machine([], ((m.count as int + 1) % 256) as byte, (n as int - CommandCount) as byte, Some(Ignore));
    SelectOnly(m, s, 6, fs, depth);
    DataByte(m1, s, n, fs, depth);
    MarkerFires(m2, s, 1, fs, depth);
    assert IgnoreSpec([n]) == Ok((n as int - CommandCount) as byte);
    assert RunBytes(m3, s, [], fs, depth) == Done(s, m3);
    assert RunBytes(m2, s, [1], fs, depth) == Done(s, m3) by {
      assert [1 as byte][1..] == [];
    }
    assert RunBytes(m1, s, [n, 1], fs, depth) == Done(s, m3) by {
      assert m1.register + [n] == [n];
      assert [n, 1][1..] == [1];
    }
    assert [6, n, 1][1..] == [n, 1];
  }

  /**
   * The Ignore escape: selecting Ignore, the payload byte n + 7 and a Split
   * make the next n bytes, whatever their values, the register's content.
   */
  lemma IgnoreEscape(m: Machine, s: StoreValue, data: seq<byte>, fs: FileSystem, depth: nat)
    requires m.ignoreCount == 0 && m.register == [] && |data| <= 255 - CommandCount
    ensures RunBytes(m, s, [6, (|data| + CommandCount) as byte, 1] + data, fs, depth)
         == Done(s, Machine(data, ((m.count as int + 1) % 256) as byte, 0, Some(Ignore)))
  {
    var n := (|data| + CommandCount) as byte;
    var m3 := Machine([], ((m.count as int + 1) % 256) as byte, |data| as byte, Some(Ignore));
    EscapeHeader(m, s, n, fs, depth);
    RunConcat(m, s, [6, n, 1], data, fs, depth);
    DataBytes(m3, s, data, fs, depth);
    assert m3.register + data == data;
  }

  /** A string written as literal bytes is read as data. */
  lemma EncodedAsData(m: Machine, name: string)
    requires Alphabet.InAlphabet(name)
    ensures ReadAsData(m, Alphabet.EncodeString(name))
  {
    var bytes := Alphabet.EncodeString(name);
    Alphabet.EncodeStringAt(name);
    forall i | 0 <= i < |bytes| ensures bytes[i] as int >= CommandCount {
      assert bytes[i] == Alphabet.CharacterToByte(name[i]);
    }
  }

  /** After CreateTable is selected, the encoded name fills the register. */
  lemma NameRead(m: Machine, s: StoreValue, name: string, fs: FileSystem, depth: nat)
    requires m.ignoreCount == 0 && m.register == [] && Alphabet.InAlphabet(name)
    ensures RunBytes(m, s, [2] + Alphabet.EncodeString(name), fs, depth)
         == Done(s, m.(current := Some(CreateTable), register := Alphabet.EncodeString(name)))
  {
    var bytes := Alphabet.EncodeString(name);
    var m1 := m.(current := Some(CreateTable));
    SelectOnly(m, s, 2, fs, depth);
    assert RunBytes(m, s, [2], fs, depth) == Done(s, m1) by {
      assert [2 as byte][1..] == [];
    }
    EncodedAsData(m1, name);
    DataBytes(m1, s, bytes, fs, depth);
    assert m1.register + bytes == bytes;
    RunConcat(m, s, [2], bytes, fs, depth);
  }

  /** The program CreateTable, name, End appends a table of that name. */
  lemma CreateTableProgram(m: Machine, s: StoreValue, name: string, fs: FileSystem, depth: nat)
    requires m.ignoreCount == 0 && m.register == [] && Alphabet.InAlphabet(name)
    ensures RunBytes(m, s, [2] + Alphabet.EncodeString(name) + [0], fs, depth)
         == Done(StoreValue(s.tables + [NewTable(name)], s.tableNames + [name]), Machine([], 0, 0, Some(CreateTable)))
  {
    var bytes := Alphabet.EncodeString(name);
    var m2 := m.(current := Some(CreateTable), register := bytes);
    var s' := StoreValue(s.tables + [NewTable(name)], s.tableNames + [name]);
    NameRead(m, s, name, fs, depth);
    assert RunBytes(m2, s, [0], fs, depth) == Done(s', Machine([], 0, 0, Some(CreateTable))) by {
      Tables.CreateTableAppends(s, name);
      MarkerFires(m2, s, 0, fs, depth);
      assert [0 as byte][1..] == [];
    }
    RunConcat(m, s, [2] + bytes, [0], fs, depth);
  }

  /** The character at alphabet position i is written as byte i + 7. */
  lemma LetterByte(c: char, i: int)
    requires 0 <= i < 96 && c == Alphabet.CharAt(i)
    ensures c in Alphabet.CharacterMap && Alphabet.CharacterToByte(c) as int == i + CommandCount
  {
    Alphabet.CharacterMapSize();
    Alphabet.ByteRoundTrip((i + CommandCount) as byte);
  }

  /** A three-character string is written character by character. */
  lemma ThreeLetters(s: string)
    requires |s| == 3 && s[0] in Alphabet.CharacterMap && s[1] in Alphabet.CharacterMap && s[2] in Alphabet.CharacterMap
    ensures Alphabet.InAlphabet(s)
    ensures Alphabet.EncodeString(s)
         == [Alphabet.CharacterToByte(s[0]), Alphabet.CharacterToByte(s[1]), Alphabet.CharacterToByte(s[2])]
  {
    Alphabet.EncodeStringAt(s);
  }

  /** "foo" in the code's alphabet: 'f' is position 41 and 'o' position 50, so bytes 48, 57, 57. */
  lemma FooEncoded()
    ensures Alphabet.InAlphabet("foo") && Alphabet.EncodeString("foo") == [48, 57, 57]
  {
    LetterByte('f', 41);
    LetterByte('o', 50);
    ThreeLetters("foo");
  }

  /** The program CreateTable, "foo", End on an empty store makes one table named "foo". */
  lemma FooTable(fs: FileSystem)
    ensures RunBytes(Initial, EmptyStore, [2, 48, 57, 57, 0], fs, 0)
         == Done(StoreValue([NewTable("foo")], ["foo"]), Machine([], 0, 0, Some(CreateTable)))
  {
    var program: seq<byte> := [2, 48, 57, 57, 0];
    assert program == [2] + [48, 57, 57] + [0];
    FooEncoded();
    CreateTableProgram(Initial, EmptyStore, "foo", fs, 0);
  }

  /**
   * A file holding that program decodes "foo", but the pass then prints
   * "foo", which has no field names, and the title padding throws.
   */
  lemma FieldlessTableFails()
    ensures ProcessFile(EmptyStore, "a", map["a" := [2, 48, 57, 57, 0]], 0)
         == Aborted(StoreValue([NewTable("foo")], ["foo"]), NegativePadding)
  {
    var fs: FileSystem := map["a" := [2, 48, 57, 57, 0]];
    FooTable(fs);
    assert Unprintable(StoreValue([NewTable("foo")], ["foo"])) by {
      assert StoreValue([NewTable("foo")], ["foo"]).tables[0].fieldNames == [];
    }
  }

  /**
   * Byte 107 is not a literal byte of the 96-character alphabet, so the
   * program CreateTable, 107, 108, 109, End aborts with an empty store.
   */
  lemma HighBytesRejected()
    ensures RunBytes(Initial, EmptyStore, [2, 107, 108, 109, 0], map[], 0) == Aborted(EmptyStore, CharacterOutOfRange)
  {
    var bytes: seq<byte> := [107, 108, 109];
    var m := Initial.(current := Some(CreateTable));
    Alphabet.CharacterMapSize();
    assert RunBytes(Initial, EmptyStore, [2], map[], 0) == Done(EmptyStore, m) by {
      SelectOnly(Initial, EmptyStore, 2, map[], 0);
      OneByteRun(Initial, EmptyStore, 2, map[], 0);
    }
    assert RunBytes(m, EmptyStore, bytes, map[], 0) == Done(EmptyStore, m.(register := bytes)) by {
      assert ReadAsData(m, bytes);
      DataBytes(m, EmptyStore, bytes, map[], 0);
      assert m.register + bytes == bytes;
    }
    assert Alphabet.DecodeBytes(bytes) == Err(CharacterOutOfRange) by {
      Alphabet.DecodeRejects(bytes, 0);
    }
    assert RunBytes(m.(register := bytes), EmptyStore, [0], map[], 0) == Aborted(EmptyStore, CharacterOutOfRange) by {
      MarkerFires(m.(register := bytes), EmptyStore, 0, map[], 0);
      OneByteRun(m.(register := bytes), EmptyStore, 0, map[], 0);
    }
    RunConcat(Initial, EmptyStore, [2], bytes, map[], 0);
    RunConcat(Initial, EmptyStore, [2] + bytes, [0], map[], 0);
    assert [2 as byte] + bytes + [0] == [2, 107, 108, 109, 0];
  }

  // Nothing a run does removes or rewrites a finished table

  /** The store at the end of an outcome, whether done or aborted. */
  function StoreOf<T>(o: Outcome<T>): StoreValue {
    o.store
  }

  lemma ExtendsReflexive(s: StoreValue)
    ensures Extends(s, s)
  {
    assert s.tableNames[..|s.tableNames|] == s.tableNames;
  }

  /** Calling any handler, OpenFile's nested run included, extends the store, even when it fails part-way. */
  lemma DispatchExtends(h: Handler, s: StoreValue, id: byte, payload: seq<byte>, fs: FileSystem, depth: nat)
    ensures var s' := StoreOf(Dispatch(h, s, id, payload, fs, depth));
            Extends(s, s') && (Aligned(s) ==> Aligned(s')) && (UniqueFieldNames(s) ==> UniqueFieldNames(s'))
    decreases depth, 0
  {
    ExtendsReflexive(s);
    match h
    case CreateTable =>
      if CreateTableSpec(s, payload).Ok? { CreateTableExtends(s, payload); }
    case AddField =>
      if AddFieldSpec(s, id, payload).Ok? { AddFieldExtends(s, id, payload); }
    case AddRecord =>
      if AddRecordSpec(s, id, payload).Ok? { AddRecordExtends(s, id, payload); }
    case Ignore =>
    case OpenFile =>
      match Alphabet.DecodeBytes(payload)
      case Err(_) =>
      case Ok(name) =>
        if depth > 0 {
          ProcessFileExtends(s, name, fs, depth - 1);
        }
  }

  /** One byte of the loop extends the store. */
  lemma TransitionExtends(m: Machine, s: StoreValue, b: byte, fs: FileSystem, depth: nat)
    ensures var s' := StoreOf(Transition(m, s, b, fs, depth));
            Extends(s, s') && (Aligned(s) ==> Aligned(s')) && (UniqueFieldNames(s) ==> UniqueFieldNames(s'))
    decreases depth, 1
  {
    ExtendsReflexive(s);
    if (b as int) < CommandCount && m.ignoreCount == 0 && !CommandMap[b].Select? && m.current.Some? {
      DispatchExtends(m.current.value, s, m.count, m.register, fs, depth);
    }
  }

  /** A whole run over a byte sequence extends the store, up to the byte that fails if one does. */
  lemma {:induction false} RunBytesExtends(m: Machine, s: StoreValue, bytes: seq<byte>, fs: FileSystem, depth: nat)
    ensures var s' := StoreOf(RunBytes(m, s, bytes, fs, depth));
            Extends(s, s') && (Aligned(s) ==> Aligned(s')) && (UniqueFieldNames(s) ==> UniqueFieldNames(s'))
    decreases depth, 2, |bytes|
  {
    if bytes == [] {
      ExtendsReflexive(s);
    } else {
      TransitionExtends(m, s, bytes[0], fs, depth);
      match Transition(m, s, bytes[0], fs, depth)
      case Aborted(_, _) =>
      case Done(s1, m1) =>
        RunBytesExtends(m1, s1, bytes[1..], fs, depth);
        ExtendsTransitive(s, s1, StoreOf(RunBytes(m1, s1, bytes[1..], fs, depth)));
    }
  }

  /** Processing a file extends the store. */
  lemma ProcessFileExtends(s: StoreValue, fileName: string, fs: FileSystem, depth: nat)
    ensures var s' := StoreOf(ProcessFile(s, fileName, fs, depth));
            Extends(s, s') && (Aligned(s) ==> Aligned(s')) && (UniqueFieldNames(s) ==> UniqueFieldNames(s'))
    decreases depth, 3
  {
    ExtendsReflexive(s);
    if fileName in fs {
      RunBytesExtends(Initial, s, fs[fileName], fs, depth);
    }
  }

  // A row written as AddRecord payloads is read back as one record

  /**
   * The bytes of one row: each value's encoding followed by Split, the last
   * one followed by marker (End for a complete row).
   */
  function RowBytes(vs: seq<Value>, marker: byte): seq<byte>
    requires vs != []
    decreases |vs|
  {
    var n := |vs| - 1;
    (if n == 0 then [] else RowBytes(vs[..n], 1)) + EncodeValue(vs[n]) + [marker]
  }

  /** The first value of a row has no skip hint to protect it, so its bytes must not look like opcodes. */
  predicate FirstReadable(vs: seq<Value>) {
    vs != [] && forall i :: 0 <= i < |EncodeValue(vs[0])| ==> EncodeValue(vs[0])[i] as int >= CommandCount
  }

  /** The interpreter with AddRecord selected, at the start of a row. */
  const RowStart: Machine := Machine([], 0, 0, Some(AddRecord))

  /**
   * With handler h selected and the register empty, a payload read as data
   * and a marker make exactly one call of h, on that payload.
   */
  lemma PayloadRead(m: Machine, s: StoreValue, h: Handler, bytes: seq<byte>, marker: byte,
                    s': StoreValue, hint: byte, fs: FileSystem, depth: nat)
    requires m.current == Some(h) && m.register == [] && marker < 2
    requires ReadAsData(m, bytes) && m.ignoreCount as int <= |bytes|
    requires Dispatch(h, s, m.count, bytes, fs, depth) == Done(s', hint)
    ensures var count := if marker == 0 then 0 else ((m.count as int + 1) % 256) as byte;
            RunBytes(m, s, bytes + [marker], fs, depth) == Done(s', Machine([], count, hint, Some(h)))
  {
    var count := if marker == 0 then 0 else ((m.count as int + 1) % 256) as byte;
    var m1 := m.(register := bytes, ignoreCount := 0);
    assert RunBytes(m, s, bytes, fs, depth) == Done(s, m1) by {
      DataBytes(m, s, bytes, fs, depth);
      assert m.register + bytes == bytes;
    }
    assert Transition(m1, s, marker, fs, depth) == Done(s', Machine([], count, hint, Some(h))) by {
      MarkerFires(m1, s, marker, fs, depth);
    }
    OneByteRun(m1, s, marker, fs, depth);
    RunConcat(m, s, bytes, [marker], fs, depth);
  }

  /**
   * The last value of a row of two or more is read as data after the value
   * before it: an Integer column is covered by the hint 4 its predecessor
   * returned, and a Text column needs no cover.
   */
  lemma NextValueIsData(t: TableValue, m: Machine, vs: seq<Value>)
    requires 1 < |vs| < 256 && FitsColumns(t, vs)
    requires m.ignoreCount == NextColumnHint(t, (|vs| - 2) as byte)
    ensures ReadAsData(m, EncodeValue(vs[|vs| - 1])) && m.ignoreCount as int <= |EncodeValue(vs[|vs| - 1])|
  {
    var v := vs[|vs| - 1];
    if v.Text? {
      EncodedAsData(m, v.text);
    }
  }

  /** The bytes of a row of two or more: the front as split fields, then the last value and the marker. */
  lemma RowBytesSnoc(vs: seq<Value>, marker: byte)
    requires |vs| > 1
    ensures RowBytes(vs, marker) == RowBytes(vs[..|vs| - 1], 1) + (EncodeValue(vs[|vs| - 1]) + [marker])
  {}

  /** The first value of a row, FirstReadable, is read as data from an ignoreCount of 0. */
  lemma FirstValueIsData(m: Machine, vs: seq<Value>)
    requires FirstReadable(vs) && m.ignoreCount == 0
    ensures ReadAsData(m, EncodeValue(vs[0])) && m.ignoreCount as int <= |EncodeValue(vs[0])|
  {}

  /**
   * No skip hint protects the first column of a row, so FirstReadable is
   * needed: the row [Integer(0)] is written 0, 0, 0, 0, 0, its first byte is
   * read as End, AddRecord is called on an empty payload, and
   * BitConverter.ToInt32 throws.
   */
  lemma FirstIntegerUnprotected(s: StoreValue, fs: FileSystem, depth: nat)
    requires s.tables != [] && s.tables[|s.tables| - 1].fieldTypes != []
    requires s.tables[|s.tables| - 1].fieldTypes[0] == IntegerType
    ensures !FirstReadable([Integer(0)])
    ensures RunBytes(RowStart, s, RowBytes([Integer(0)], 0), fs, depth) == Aborted(s, TooFewIntegerBytes)
  {
    var payload := EncodeValue(Integer(0));
    assert payload[0] == 0 by {
      assert LittleEndian(payload) == 0;
    }
    var bytes := RowBytes([Integer(0)], 0);
    assert bytes == payload + [0];
    assert AddRecordSpec(s, 0, []) == Err(TooFewIntegerBytes);
    MarkerFires(RowStart, s, 0, fs, depth);
    assert Transition(RowStart, s, bytes[0], fs, depth) == Aborted(s, TooFewIntegerBytes);
  }

  /** The state after reading the bytes of row vs from RowStart with s as the store. */
  function AfterRow(s: StoreValue, vs: seq<Value>, marker: byte): Outcome<Machine>
    requires s.tables != [] && 0 < |vs| < 256
  {
    var last := s.tables[|s.tables| - 1];
    var count := if marker == 0 then 0 else |vs| as byte;
    Done(WithLast(s, last.(records := last.records + [vs])),
         Machine([], count, NextColumnHint(last, (|vs| - 1) as byte), Some(AddRecord)))
  }

  /** A one-value row. */
  lemma RowOfOne(s: StoreValue, vs: seq<Value>, marker: byte, fs: FileSystem, depth: nat)
    requires s.tables != [] && |vs| == 1 && marker < 2
    requires FitsColumns(s.tables[|s.tables| - 1], vs) && FirstReadable(vs)
    ensures RunBytes(RowStart, s, RowBytes(vs, marker), fs, depth) == AfterRow(s, vs, marker)
  {
    var last := s.tables[|s.tables| - 1];
    FirstValueIsData(RowStart, vs);
    AddRecordValueStep(s, 0, vs[0]);
    assert [vs[0]] == vs;
    assert RowBytes(vs, marker) == EncodeValue(vs[0]) + [marker];
    var s1 := WithLast(s, last.(records := last.records + [vs]));
    PayloadRead(RowStart, s, AddRecord, EncodeValue(vs[0]), marker, s1, NextColumnHint(last, 0), fs, depth);
    var count := if marker == 0 then 0 else 1;
    assert AfterRow(s, vs, marker) == Done(s1, Machine([], count, NextColumnHint(last, 0), Some(AddRecord)));
  }

  /** The machine after the front of a row of n + 1 values: AddRecord selected, column n next. */
  function BeforeLast(last: TableValue, n: nat): Machine
    requires 0 < n < 255
  {
    Machine([], n as byte, NextColumnHint(last, (n - 1) as byte), Some(AddRecord))
  }

  /** AddRecord on the last value of a longer row completes the record the front started. */
  lemma LastDispatch(s: StoreValue, vs: seq<Value>, fs: FileSystem, depth: nat)
    requires s.tables != [] && 1 < |vs| < 256
    requires FitsColumns(s.tables[|s.tables| - 1], vs)
    ensures var last := s.tables[|s.tables| - 1];
            var n := |vs| - 1;
            Dispatch(AddRecord, WithLast(s, last.(records := last.records + [vs[..n]])), n as byte, EncodeValue(vs[n]), fs, depth)
            == Done(WithLast(s, last.(records := last.records + [vs])), NextColumnHint(last, n as byte))
  {
    RowCompleted(s, vs);
  }

  /** AfterRow for a row of two or more values, written out. */
  lemma AfterLonger(s: StoreValue, vs: seq<Value>, marker: byte)
    requires s.tables != [] && 1 < |vs| < 256 && marker < 2
    ensures var last := s.tables[|s.tables| - 1];
            var n := |vs| - 1;
            var count := if marker == 0 then 0 else ((n + 1) % 256) as byte;
            AfterRow(s, vs, marker)
            == Done(WithLast(s, last.(records := last.records + [vs])),
                    Machine([], count, NextColumnHint(last, n as byte), Some(AddRecord)))
  {}

  /** After the front of a longer row, its last value and the marker complete the record. */
  lemma LastValueRead(s: StoreValue, vs: seq<Value>, marker: byte, fs: FileSystem, depth: nat)
    requires s.tables != [] && 1 < |vs| < 256 && marker < 2
    requires FitsColumns(s.tables[|s.tables| - 1], vs)
    ensures var last := s.tables[|s.tables| - 1];
            var n := |vs| - 1;
            RunBytes(BeforeLast(last, n), WithLast(s, last.(records := last.records + [vs[..n]])),
                     EncodeValue(vs[n]) + [marker], fs, depth)
            == AfterRow(s, vs, marker)
  {
    var last := s.tables[|s.tables| - 1];
    var n := |vs| - 1;
    var m1 := BeforeLast(last, n);
    LastDispatch(s, vs, fs, depth);
    NextValueIsData(last, m1, vs);
    PayloadRead(m1, WithLast(s, last.(records := last.records + [vs[..n]])), AddRecord, EncodeValue(vs[n]), marker,
                WithLast(s, last.(records := last.records + [vs])), NextColumnHint(last, n as byte), fs, depth);
    AfterLonger(s, vs, marker);
  }

  /** The last value of a longer row, after the values before it. */
  lemma RowOfMore(s: StoreValue, vs: seq<Value>, marker: byte, fs: FileSystem, depth: nat)
    requires s.tables != [] && 1 < |vs| < 256 && marker < 2
    requires FitsColumns(s.tables[|s.tables| - 1], vs)
    requires RunBytes(RowStart, s, RowBytes(vs[..|vs| - 1], 1), fs, depth) == AfterRow(s, vs[..|vs| - 1], 1)
    ensures RunBytes(RowStart, s, RowBytes(vs, marker), fs, depth) == AfterRow(s, vs, marker)
  {
    var last := s.tables[|s.tables| - 1];
    var n := |vs| - 1;
    var a := RowBytes(vs[..n], 1);
    var b := EncodeValue(vs[n]) + [marker];
    assert RunBytes(RowStart, s, a, fs, depth)
        == Done(WithLast(s, last.(records := last.records + [vs[..n]])), BeforeLast(last, n)) by {
      assert |vs[..n]| == n;
    }
    LastValueRead(s, vs, marker, fs, depth);
    assert RowBytes(vs, marker) == a + b by {
      RowBytesSnoc(vs, marker);
    }
    RunConcat(RowStart, s, a, b, fs, depth);
  }

  /**
   * Reading the bytes of a row from RowStart makes AddRecord calls with
   * field index 0, 1, ...; the last table gains one record holding exactly
   * the row's values, and AddRecord stays selected for the next row.
   */
  lemma {:induction false} RowRead(s: StoreValue, vs: seq<Value>, marker: byte, fs: FileSystem, depth: nat)
    requires s.tables != [] && 0 < |vs| < 256 && marker < 2
    requires FitsColumns(s.tables[|s.tables| - 1], vs) && FirstReadable(vs)
    ensures RunBytes(RowStart, s, RowBytes(vs, marker), fs, depth) == AfterRow(s, vs, marker)
    decreases |vs|
  {
    if |vs| == 1 {
      RowOfOne(s, vs, marker, fs, depth);
    } else {
      assert vs[..|vs| - 1][0] == vs[0];
      RowRead(s, vs[..|vs| - 1], 1, fs, depth);
      RowOfMore(s, vs, marker, fs, depth);
    }
  }
}
