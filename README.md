# Argon decoder, modelled in Dafny

Argon is a binary table format. A file is a stream of bytes in which the
seven opcodes 0..6 are interleaved with literal payload bytes. The opcodes are:

| byte | opcode | role |
|---|---|---|
| 0 | End | control marker |
| 1 | Split | control marker |
| 2 | CreateTable | selects a handler |
| 3 | AddField | selects a handler |
| 4 | AddRecord | selects a handler |
| 5 | OpenFile | selects a handler |
| 6 | Ignore | selects a handler |

A handler opcode selects a handler. Literal bytes fill a register. A
control marker calls the selected handler on the field counter and the
register. Handlers build tables, name and type their fields, and append
records. They return a skip hint: the number of following bytes to read as
data even when their values look like opcodes.

The project models the decoder's core:

- `common.dfy`: bytes, the opcode count (7), the exceptions the decoder can
  raise (as an `Error` type), and `Result`.
- `alphabet.dfy`: the 96-character alphabet `CharacterMap` and its codec.
  Character i is written as byte i + 7, so literal text occupies bytes
  7..102. The codec is `CharacterToByte`, `ByteToCharacter`, and the loops
  `StringToBytes` and `BytesToString`.
- `values.dfy`: the type map (Text, Integer) and the one-byte type code
  `TypeToBytes`. It also holds the 4-byte little-endian two's-complement
  integer codec, and the `Data` accessors of `Text` and `Integer` as
  `DecodeValue`/`EncodeValue` over a closed `Value` datatype.
- `tables.dfy`: the `Table` class and the `Store` class. `Table` has
  `CreateRecord` and `AddRecordValue`. `Store` holds the `Tables` and
  `TableNames` lists and has the handlers CreateTable, AddField and
  AddRecord as methods that change the table objects in place. Each method
  is proved against a pure function on a snapshot of the store
  (`CreateTableSpec`, `AddFieldSpec`, `AddRecordSpec`). The lemmas about
  those functions state what the handlers do.
- `interpreter.dfy`: `CommandMap`, the Ignore handler, and
  `ProcessBytesFrom`. The loop is an `Interpreter` class whose fields are the
  loop's variables `register`, `count`, `ignoreCount` and `current`. Its
  `Step` method consumes one byte and `Run` is the `foreach` loop. Both are
  proved against the pure functions `Transition` and `RunBytes`. Lemmas
  about runs state:
  - what a marker, a handler opcode and a data byte do;
  - how the Ignore escape and the skip hint 4 protect payload bytes;
  - that a row written as AddRecord payloads is read back as one record;
  - that a run only appends: it removes, reorders or rewrites no table,
    changes none but the last, and only appends to that one, while TableNames stays
    aligned with the tables and field names stay unique within each table.
- `printing.dfy`: the table printing that ends each `ProcessBytesFrom` pass,
  reduced to the widths `PrintTable` computes and the padding lengths it
  passes to `new string(' ', n)`. The title padding is negative, and
  `PrintTable` throws, exactly when a table has no field names. A pass that
  decodes such a table therefore ends in an exception.

Exceptions thrown by the C# code are `Err` results, or `Aborted` outcomes
that carry the store as it was when the exception was thrown. Tables
created before a failing byte remain, as in the code.

## Model

| member | source | states |
|---|---|---|
| Alphabet.CharacterMapUnfolded | Program.cs:294-306 | The alphabet is the eleven character groups concatenated in InitCharacters' order: digits, capitals, lowercase, space and newline, dot punctuation, brackets, quotes, arithmetic, symbols, long lines, backtick and tilde |
| Alphabet.InitCharacters | Program.cs:292-308 | Reports the alphabet size, 96, and 7 + 96 fits in a byte, so every literal byte is a byte |
| Alphabet.CharacterMapDistinct | Program.cs:294-306 | No character occurs twice in the alphabet |
| Alphabet.IndexOf | Program.cs:327 | List.IndexOf returns -1 or a position inside the list. IndexOfFinds states which |
| Alphabet.IndexOfFinds | Program.cs:327 | List.IndexOf is -1 exactly when the character is absent, and otherwise the first position holding it |
| Alphabet.CharacterToByte | Program.cs:325-328 | A character of the alphabet becomes the literal byte of its position plus 7. Any other character becomes byte 6 (IndexOf gives -1), which is the Ignore opcode |
| Alphabet.ByteToCharacter | Program.cs:320-323 | Succeeds exactly on bytes 7..102, with the character at position b - 7. Any other byte is the list-index exception |
| Alphabet.ByteRoundTrip | Program.cs:320-328 | CharacterToByte(ByteToCharacter(b)) == b for every literal byte |
| Alphabet.CharacterRoundTrip | Program.cs:320-328 | ByteToCharacter(CharacterToByte(c)) == c for every character of the alphabet |
| Alphabet.EncodeString | Program.cs:330-338 | StringToBytes writes one byte per character |
| Alphabet.EncodeStringAt | Program.cs:330-338 | Byte i of StringToBytes(s) is CharacterToByte(s[i]) |
| Alphabet.DecodeBytes | Program.cs:340-348 | BytesToString fails only with the character-range exception, and on success returns one character per byte |
| Alphabet.DecodeBytesAt | Program.cs:340-348 | BytesToString succeeds exactly when every byte is a literal byte, and then character i is ByteToCharacter(bytes[i]) |
| Alphabet.StringToBytes | Program.cs:330-338 | The foreach loop appending CharacterToByte of each character computes the encoding of the whole string |
| Alphabet.BytesToString | Program.cs:340-348 | The foreach loop appending ByteToCharacter of each byte computes the decoding of the whole payload, throwing at the first non-literal byte |
| Alphabet.DecodeEncode | Program.cs:330-348 | BytesToString(StringToBytes(s)) == s for every string over the alphabet |
| Alphabet.EncodeDecode | Program.cs:330-348 | For bytes all in 7..102, BytesToString succeeds and StringToBytes of its result gives the bytes back |
| Alphabet.ForeignCharacterLost | Program.cs:325-348 | A character outside the alphabet is written as byte 6, and the written string no longer decodes |
| Alphabet.DecodeRejects | Program.cs:340-348 | A single non-literal byte anywhere in the payload makes BytesToString throw |
| Values.TypeIndex | Program.cs:317 | TypeMap.IndexOf(t) is the first position holding t |
| Values.Chain | Program.cs:310-313 | The result is a one-byte array holding exactly b |
| Values.TypeToBytes | Program.cs:315-318 | The type code is one byte, 7 or 8, and TypeMap at (code - 7) is the type again |
| Values.IntegerToBytes | Program.cs:350-354 | BitConverter.GetBytes gives four bytes whose unsigned little-endian reading is z mod 2^32 (two's complement) |
| Values.BytesToInteger | Program.cs:356-359 | BitConverter.ToInt32 succeeds exactly on four or more bytes, and its result is congruent mod 2^32 to the little-endian reading of the first four |
| Values.IntegerRoundTrip | Program.cs:350-359 | BytesToInteger(IntegerToBytes(z)) == z for every 32-bit z |
| Values.BytesRoundTrip | Program.cs:350-359 | IntegerToBytes(BytesToInteger(b)) is the first four bytes of b |
| Values.BytesToIntegerPrefix | Program.cs:356-359 | Only the first four bytes of an Integer payload are read |
| Values.DecodeValue | Program.cs:80-140 | Setting Data on a new instance of type t yields a value of type t. A Text payload fails exactly when the alphabet decoding fails, and an Integer payload exactly when it has fewer than four bytes |
| Values.EncodeValue | Program.cs:80-140 | The Data getter of an Integer is four bytes, and that of a Text is one byte per character |
| Values.ValueRoundTrip | Program.cs:80-140 | Setting Data to what the Data getter returned recreates the value |
| Values.PayloadRoundTrip | Program.cs:80-140 | Reading Data after setting it returns the payload, or its first four bytes for an Integer |
| Tables.LastTable | Program.cs:200 | Tables.Last() succeeds exactly when there is a table, and then returns the table added last |
| Tables.CreateTableSpec | Program.cs:152-161 | The CreateTable handler on a store value. It has no contract of its own. CreateTableAppends, CreateTableFails and CreateTableExtends state what it does, and Store.CreateTable is proved against it |
| Tables.AddFieldSpec | Program.cs:163-194 | The AddField handler on a store value, by parity of the index. It has no contract of its own. AddFieldEffect and AddFieldExtends state what it does, and Store.AddField is proved against it |
| Tables.FieldNameSpec | Program.cs:168-179 | The even-index branch of AddField. It has no contract of its own. FieldNameAppends states what it does, and Store.AddFieldName is proved against it |
| Tables.FieldTypeSpec | Program.cs:180-192 | The odd-index branch of AddField. It has no contract of its own. FieldTypeAgrees and FieldTypeBytes state what it does, and Store.AddFieldType is proved against it |
| Tables.AddRecordSpec | Program.cs:196-212 | The AddRecord handler on a store value. It has no contract of its own. AddRecordRejects, AddRecordEffect, RecordInColumnOrder and AddRecordExtends state what it does, and Store.AddRecord is proved against it |
| Tables.Table.constructor | Program.cs:59-62 | A new table has the given name and no fields, types or records |
| Tables.Table.CreateRecord | Program.cs:64-69 | Appends one empty record and changes nothing else |
| Tables.Table.AddRecordValue | Program.cs:71-74 | With no record, records.Last() throws and the table is unchanged. Otherwise the value is appended to the last record only |
| Tables.Store.constructor | Program.cs:77-78 | Tables and TableNames start empty |
| Tables.Store.CreateTable | Program.cs:152-161 | Changes the store exactly as CreateTableSpec says, adding only fresh table objects. A failure leaves the store unchanged |
| Tables.Store.AddField | Program.cs:163-194 | Dispatches on the parity of the field index and changes the store exactly as AddFieldSpec says |
| Tables.Store.AddFieldName | Program.cs:168-179 | Decodes the name, then fails without a table, fails on a duplicate name, or appends the name to the last table |
| Tables.Store.AddFieldType | Program.cs:180-192 | Fails unless the payload is one byte, fails without a table, fails unless (b - 7) mod 256 indexes TypeMap, and otherwise appends that type to the last table |
| Tables.Store.AddRecord | Program.cs:196-212 | Changes the table objects in place exactly as AddRecordSpec says, and returns its skip hint |
| Tables.CreateTableAppends | Program.cs:154-160 | On an encoded name, CreateTable appends exactly one empty table with that name, and the name to TableNames. Earlier tables are unchanged and the hint is 0 |
| Tables.CreateTableFails | Program.cs:154-160 | CreateTable fails exactly when its payload holds a non-literal byte |
| Tables.FieldNameAppends | Program.cs:168-179 | On an even index, an encoded name already present fails with the duplicate-name exception. Otherwise exactly that name is appended to the last table |
| Tables.FieldTypeAgrees | Program.cs:182-187 | On an odd index, AddField given TypeToBytes(t) appends exactly t to the last table's field types |
| Tables.FieldTypeBytes | Program.cs:180-192 | On an odd index, a payload that is not one byte fails. With a table, a one-byte payload succeeds exactly on the codes 7 and 8 |
| Tables.AddFieldEffect | Program.cs:163-194 | A successful AddField returns 0 and changes only the last table. It adds either one new, unique field name or one field type |
| Tables.AddRecordRejects | Program.cs:200-202 | An index above the field-name count is a byte overflow. An index with no declared type is the list-index exception |
| Tables.AddRecordEffect | Program.cs:200-210 | A successful AddRecord decodes a value of the column's type. It appends the value to a new record when the index is 0, otherwise to the last record, and changes nothing else. It returns 4 exactly when the next column exists and is Integer, otherwise 0 |
| Tables.RecordInColumnOrder | Program.cs:196-212 | AddRecord on encoded values for columns 0, 1, ... in order appends one record holding exactly those values, in order |
| Tables.FieldBlock | Program.cs:163-194 | AddField with indices 0, 1, 2, ... on distinct encoded names, each followed by its type code, leaves a table without fields with exactly those names and types |
| Tables.CreateTableExtends | Program.cs:154-160 | CreateTable removes or rewrites no table: every table but the last is unchanged and the last only grows (name kept, field names and types appended to, earlier records unchanged, the last record only extended at its end). It keeps TableNames listing the tables' names, and keeps field names unique within each table |
| Tables.AddFieldExtends | Program.cs:163-194 | AddField changes only the last table, and only by appending (name kept, field names and types appended to, earlier records unchanged, the last record only extended at its end). It keeps TableNames aligned, and keeps field names unique within each table (the duplicate-name check) |
| Tables.AddRecordExtends | Program.cs:196-212 | AddRecord changes only the last table, and only by appending (name kept, field names and types appended to, earlier records unchanged, the last record only extended at its end). It keeps TableNames aligned, and keeps field names unique within each table |
| Tables.DecodeValueOf | Program.cs:202-204 | Activator.CreateInstance of the column type, then the Data setter, computes DecodeValue |
| Interpreter.Dispatch | Program.cs:152-231 | The callback of the selected handler on a store value, OpenFile included. It has no contract of its own. IgnoreSpec, DispatchExtends and the Tables lemmas state what it does, and Invoke is proved against it |
| Interpreter.Transition | Program.cs:383-411 | One pass of the loop body on values. It has no contract of its own. MarkerFires, SelectOnly, DataByte and TransitionExtends state what it does, and Interpreter.Step is proved against it |
| Interpreter.RunBytes | Program.cs:379-411 | The foreach loop on values, stopping at the first exception. It has no contract of its own. RunConcat, DataBytes, PayloadRead, RowRead and RunBytesExtends state what it does, and Interpreter.Run is proved against it |
| Interpreter.ProcessFile | Program.cs:372-416 | A whole ProcessBytesFrom pass on values, ending with the table printing. It has no contract of its own. FieldlessTableFails and ProcessFileExtends state what it does, and ProcessBytesFrom is proved against it |
| Interpreter.IgnoreSpec | Program.cs:224-231 | The Ignore handler rejects a payload of two or more bytes, throws on an empty one, and returns (b - 7) mod 256 for a single byte b |
| Interpreter.Invoke | Program.cs:152-231 | Calling the selected handler's callback changes the store as Dispatch says, adding only fresh table objects |
| Interpreter.Interpreter.constructor | Program.cs:375-378 | The loop starts with an empty register, count 0, ignoreCount 0 and no handler |
| Interpreter.Interpreter.Step | Program.cs:383-411 | One pass of the loop body changes the four variables and the store as Transition says |
| Interpreter.Interpreter.Fire | Program.cs:386-402 | A control marker calls the handler (failing when none is selected), and leaves the state Transition gives |
| Interpreter.Interpreter.Resume | Program.cs:388-401 | After the callback, ignoreCount is its hint and the register is empty. End sets the count to 0 and Split increments it modulo 256. The handler stays selected |
| Interpreter.Interpreter.Run | Program.cs:379-412 | The foreach loop reaches the state and store RunBytes gives, stopping at the first exception |
| Interpreter.ProcessBytesFrom | Program.cs:372-416 | Reading a missing file fails. Otherwise a fresh interpreter runs over its bytes, then the tables are printed. The store ends as ProcessFile says. Every earlier table but the last is untouched, and TableNames alignment and unique field names are kept |
| Interpreter.MarkerFires | Program.cs:383-402 | On End or Split with ignoreCount 0, the handler is called on (count, register). Without a handler the byte fails. A failing call fails the loop. Otherwise the register empties, ignoreCount becomes the hint, End zeroes the count, Split increments it modulo 256, and the handler stays selected |
| Interpreter.SelectOnly | Program.cs:385-406 | On bytes 2..6 with ignoreCount 0, only the selected handler changes, to CommandMap's handler for that byte |
| Interpreter.OpcodeKinds | Program.cs:233-242 | CommandMap has seven entries, of which exactly bytes 0 and 1 are control markers |
| Interpreter.DataByte | Program.cs:407-411 | A byte of 7 or more, or any byte while ignoreCount is positive, is appended to the register, and ignoreCount counts down to 0 |
| Interpreter.DataBytes | Program.cs:407-411 | A run of bytes read as data reaches the register verbatim and in order, opcode values included. ignoreCount drops by one per byte, down to 0 |
| Interpreter.RunConcat | Program.cs:379-412 | Running over a + b is running over a, then over b from where a ended. An exception in a stops the run |
| Interpreter.IgnoreEscape | Program.cs:224-231 | Selecting Ignore, then the byte n + 7, then Split, makes the next n bytes, whatever their values, the register's content |
| Interpreter.NameRead | Program.cs:403-411 | After CreateTable is selected, an encoded name fills the register unchanged |
| Interpreter.CreateTableProgram | Program.cs:152-161 | The bytes CreateTable, name, End append exactly one table with that name and leave CreateTable selected |
| Interpreter.FooEncoded | Program.cs:295-297 | "foo" is written as the bytes 48, 57, 57 |
| Interpreter.FooTable | Program.cs:152-161 | The program 2, 48, 57, 57, 0 on an empty store makes exactly one table, named "foo" |
| Interpreter.FieldlessTableFails | Program.cs:244-263 | A file holding 2, 48, 57, 57, 0 decodes the table "foo", but the pass then fails: printing "foo", which has no field names, throws on a negative padding |
| Interpreter.HighBytesRejected | Program.cs:320-323 | The program 2, 107, 108, 109, 0 fails with the character-range exception and leaves the store empty |
| Interpreter.DispatchExtends | Program.cs:152-231 | No handler call removes or rewrites a table: every table but the last is unchanged and the last only grows (name kept, field names and types appended to, earlier records unchanged, the last record only extended at its end). This holds even for a call that fails part-way, and for the nested run of OpenFile. TableNames alignment and unique field names are kept |
| Interpreter.TransitionExtends | Program.cs:383-411 | No byte of the loop removes or rewrites a table: every table but the last is unchanged and the last only grows (name kept, field names and types appended to, earlier records unchanged, the last record only extended at its end). TableNames alignment and unique field names are kept |
| Interpreter.RunBytesExtends | Program.cs:379-412 | No run removes or rewrites a table: every table but the last is unchanged and the last only grows (name kept, field names and types appended to, earlier records unchanged, the last record only extended at its end). This holds up to and including the byte that fails. TableNames alignment and unique field names are kept |
| Interpreter.ProcessFileExtends | Program.cs:372-416 | Processing a file removes or rewrites no table: every table but the last is unchanged and the last only grows (name kept, field names and types appended to, earlier records unchanged, the last record only extended at its end). It keeps TableNames aligned with the tables and field names unique within each table |
| Interpreter.PayloadRead | Program.cs:383-411 | With a handler selected and an empty register, payload bytes read as data followed by a marker make exactly one call of the handler, on exactly that payload |
| Interpreter.RowRead | Program.cs:198-210 | The bytes of a row (each value's Data followed by Split, the last by the marker), read with AddRecord selected, append one record holding exactly the row's values. The first value must have no byte below 7, because no hint protects column 0. The hint 4 carries each Integer after the first column past opcode-valued bytes |
| Interpreter.FirstIntegerUnprotected | Program.cs:383-406 | The row [Integer(0)] is written 0, 0, 0, 0, 0. Its first byte is read as End, AddRecord is called on an empty payload, and the run fails with the ToInt32 exception, leaving the store unchanged |
| Printing.Digits | Program.cs:136-139 | The decimal form of n has at least one digit, and exactly one when n < 10 |
| Printing.MaxFieldWidth | Program.cs:246-257 | maxFieldWidth is the longest of the table's name, its field names and the ToString of its cells. It is at least each of them and equal to one of them |
| Printing.TitleFits | Program.cs:259-263 | With at least one field, the title padding width - name length - 4 is positive |
| Printing.OtherPaddings | Program.cs:258-279 | The divider length and the padding after each field name and each cell are never negative |
| Printing.PrintTable | Program.cs:244-281 | PrintTable(table, null) throws exactly when the table has no field names |
| Printing.PrintTables | Program.cs:413-416 | Printing the tables throws exactly when some table has no field names |

## Left out

- The text written to the console is left out: the banner, Main, PrintBytes, and the lines PrintTable writes. Of PrintTable, the model keeps only the widths and padding lengths, because the padding on a table without field names throws and so changes the outcome of a pass, nested OpenFile passes included.
- Printing.PrintTable: the column width argument w is always null at its one call site, so only the computed width is modelled.
- Printing.CellWidth: the length of an Integer's ToString assumes the invariant culture's "-" sign and decimal digits.
- Alphabet.EncodeString: C# strings are sequences of UTF-16 code units, while a Dafny string is a sequence of Unicode scalar values. A character outside the Basic Multilingual Plane, such as U+1F600, is two code units in the code and so is written as the two bytes 6, 6; the model writes one byte 6. Lone surrogates cannot be expressed in the model. Only characters outside the alphabet are affected, and they are written as byte 6 either way. Printing.CellWidth likewise counts scalar values rather than code units.
- File.ReadAllBytes is modelled as a map from file names to byte sequences. A missing name is the FileNotFound error.
- Interpreter.ProcessBytesFrom: OpenFile re-enters ProcessBytesFrom without bound. The model bounds that recursion with a depth counter and fails with RecursionLimit at depth 0, so that the mutual recursion terminates. The code would instead overflow the stack on a file that opens itself.
- Activator.CreateInstance and dynamic dispatch are modelled as the closed Value type (Text or Integer) and the ValueType tag. TypeMap holds exactly these two types.
- Values.IntegerToBytes: assumes a little-endian platform for BitConverter; a big-endian platform is not modelled.
- The `ignoreCount < 0` check is left out. It is dead code, because ignoreCount is an unsigned byte.
- The noInterrupt field of Processor is left out, because nothing reads it.
- The isEmpty flag of Processor is left out. Processor is modelled by the Opcode type: a marker, or the selection of a handler.
- Tables.Table.CreateRecord: the C# method also returns the new record list. No caller uses that return value, so it is not modelled.
- InitCharacters fills the static CharacterMap once at start-up. The model makes the filled list a constant and proves that it is the group concatenation InitCharacters builds.
- The static Tables and TableNames lists are a Store object passed to the handlers.
- Exceptions carry no message text. Each thrown exception is a distinct Error value.

The model follows the code in these points, where a reader of the Argon format would expect otherwise:

- One would expect the selected handler to be cleared after a control marker. The code does not clear it, so one AddRecord selection reads row after row.
- One would expect type codes above the alphabet's literal bytes, starting at 100. The code uses the TypeMap index plus 7 (Text 7, Integer 8), so they coincide with the literal bytes of '0' and '1'.
- A character outside the alphabet is written as byte 6, the Ignore opcode, rather than being rejected.
- One would expect a negative skip count to raise a negative-count error. In the code, Ignore throws on an empty payload, and on a byte below 7 its result wraps modulo 256.
- One would expect a 93-character alphabet, in which "foo" is the bytes 107, 108, 109. The code's alphabet has 96 characters, so "foo" is the bytes 48, 57, 57, and the bytes 107, 108, 109 are not literal bytes and fail (Interpreter.HighBytesRejected).
- The field counter is a byte, so Split wraps it at 256.
- One would expect every Integer of a row to be protected from being read as opcodes. The skip hint only covers the column after the one just read, so a row's first value is unprotected: an Integer there whose low byte is below 7 is read as an opcode (Interpreter.FirstIntegerUnprotected).
- One would expect decoding to be independent of printing, so that a program creating a table with no fields succeeds. In the code, the printing at the end of the pass throws on such a table, and the pass fails after decoding it (Interpreter.FieldlessTableFails).
