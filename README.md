# SimpleSettingsManager in Dafny

SimpleSettingsManager (SSM) is a .NET library that keeps typed application
settings in one file. A setting is a `DataEntry`: a variable type, a unique
name, a group, a value, a default value and a description. The library has
two storage modes behind one façade:

- the **SQLite mode** keeps one table per variable type (`Int16`, `Int32`,
  …, `ByteArray`, `Boolean`) and a `_MetaData` table. Each row is
  `(VariableName, VariableGroup, VariableValue, VariableDefault,
  VariableDesc)`, as `CreateMetaTable`/`Create*Table` lay them out.
- the **XML mode** keeps one heading element per variable type under the
  document root. Under each heading are group elements, and under those
  variable elements whose children are the value, default and description
  leaves.

Both modes seed eight `SSM_*` metadata records when they create a file and
refresh three of them whenever an existing file is opened. Two migrations
copy settings between files:

- `CrossModeMigration` copies an SSM file of one mode into a file of the
  other mode.
- `XmlSettingsMigration` copies a file of the older "XmlSettings" format
  into an SSM file.

The Dafny model follows the source file by file:

| module | file | models |
|---|---|---|
| `Wrappers` | wrappers.dfy | `Option`, the library's exceptions as an `Error` value, and `Outcome` (a result or a thrown exception) |
| `Bytes` | bytes.dfy | `BitConverter.GetBytes`/`To*` on a little-endian machine, for signed, unsigned and boolean values |
| `DecimalText` | decimal_text.dfy | `ToString()` of integers and booleans, and `Convert.ToInt*`/`Convert.ToBoolean` on text, with their format and overflow errors |
| `Utf8` | utf8.dfy | `Encoding.UTF8.GetBytes`/`GetString`, with one U+FFFD for each maximal ill-formed subsequence |
| `Utilities` | utilities.dfy | `SqlEscape` and `isSQLiteDB` |
| `Data` | data_entry.dfy | `DataEntry`, the variable types and table names, the eight seed records, and how `GetAllTypes` concatenates per-type listings |
| `TableStore` | table_store.dfy | the SQLite tables as a map from variable type to a sequence of rows; the SQL statements the mode issues become functions on that map |
| `SQLiteMode` | sqlite_mode.dfy | `SQLite.cs` as a class `SQLiteStore` whose `tables` field its methods update, each proved equal to a specification function with lemmas about it |
| `MarkupDoc` | markup_doc.dfy | the XML document as headings → groups → variables → leaves, and the XPath look-ups, inserts, removals and pruning of `XML.cs` as functions on it |
| `MarkupMode` | markup_mode.dfy | `XML.cs` as a class `XMLStore` with the in-memory document, the saved file and the auto-save flag |
| `Facade` | ssm.dfy | `SSM.cs`: mode selection and dispatch to one of the two stores |
| `MigrationStore` | migration_store.dfy | the two stores a migration talks to, seen as a shared journal of calls with an answer per call |
| `CrossMigration` | cross_mode_migration.dfy | `CrossModeMigration.cs` |
| `ForeignMigration` | xml_settings_migration.dfy | `XmlSettingsMigration.cs`: the older XmlSettings document, its eleven extractors and the migration |

The model takes these things as parameters, because the library gets them
from the environment:

- the clock, as an integer `now` standing for `GetUnixTimestamp()`;
- the application and format versions;
- what a file holds before it is opened (`existing`, or `fileStart` for
  the header `isSQLiteDB` reads);
- `BinaryFormatter` serialisation (`serialize`), which `ObjectToByteArray`
  uses when a byte-array setting is read back;
- the text form of floating-point numbers (`FloatText`).

In a migration every answer of the destination store is a parameter (the
`answer` oracle of `MigrationStore.Store`). So, for instance, the model
expresses "the migration stops at the first call that throws" for every
possible behaviour of the store.

## Model

| member | source | states |
|---|---|---|
| Data.GettersReturnConstructorArguments | SimpleSettingsManager/Data/DataEntry.cs:20-82 | each of the six getters of a record returns exactly the constructor argument in its position |
| Data.GettersDetermineEntry | SimpleSettingsManager/Data/DataEntry.cs:20-28 | two records on which all six getters agree are the same record |
| Data.TableNameInjective | SimpleSettingsManager/Mode/SQLite.cs:1048-1113 | different variable types get different table names (also used as XML heading names) |
| Data.EntryBytes | SimpleSettingsManager/Mode/SQLite.cs:643 | the bytes of an integer value have its type's width, and those of a boolean have one byte |
| Data.AppendAllConcatenates | SimpleSettingsManager/Mode/SQLite.cs:840-858 | when no per-type listing throws, `GetAllTypes` returns the non-null listings concatenated in type order |
| Data.AppendAllFails | SimpleSettingsManager/Mode/SQLite.cs:840-858 | `GetAllTypes` throws exactly when some per-type listing throws, and then it throws the exception of the first such listing |
| Data.FlattenPresentMembers | SimpleSettingsManager/Mode/XML.cs:1044-1059 | a record is in the combined listing exactly when it is in one of the non-null per-type listings |
| Data.NewFileMeta | SimpleSettingsManager/Mode/SQLite.cs:36-43 | a new file is seeded with eight metadata records |
| Data.CreationItems | SimpleSettingsManager/Mode/SQLite.cs:40-42 | the creation-timestamp record holds the clock's decimal text, and the creation-mode record names the mode |
| Data.NewFileNamesDistinct | SimpleSettingsManager/Mode/SQLite.cs:36-43 | the eight seed records have pairwise different names |
| Bytes.ToLittleEndian | SimpleSettingsManager/Mode/SQLite.cs:882-889 | an unsigned value is written as exactly `width` bytes |
| Bytes.FromToLittleEndian | SimpleSettingsManager/Mode/SQLite.cs:951-956 | reading back the bytes written for an unsigned value that fits its width gives the value |
| Bytes.ToFromLittleEndian | SimpleSettingsManager/Mode/SQLite.cs:882-889 | writing the number read from a byte string gives back that byte string |
| Bytes.SignedToBytes | SimpleSettingsManager/Mode/SQLite.cs:643 | a signed value is written as exactly `width` two's-complement bytes |
| Bytes.SignedRoundTrip | SimpleSettingsManager/Mode/SQLite.cs:467-479 | reading back the bytes of a signed value in range gives the value |
| Bytes.ReadUnsigned | SimpleSettingsManager/Mode/SQLite.cs:510-517 | `BitConverter.ToUInt*` succeeds exactly when there are enough bytes; the value is below 256^width and its bytes are the leading ones |
| Bytes.ReadSigned | SimpleSettingsManager/Mode/SQLite.cs:467-479 | `BitConverter.ToInt*` succeeds exactly when there are enough bytes |
| Bytes.ReadBool | SimpleSettingsManager/Mode/SQLite.cs:597-608 | `BitConverter.ToBoolean` needs one byte and is true exactly when that byte is non-zero |
| Bytes.ReadUnsignedOfEncoding | SimpleSettingsManager/Mode/SQLite.cs:951-956 | reading an encoded unsigned value back, with any bytes after it, gives the value |
| Bytes.ReadSignedOfEncoding | SimpleSettingsManager/Mode/SQLite.cs:467-479 | reading an encoded signed value back gives the value |
| Bytes.ReadBoolOfEncoding | SimpleSettingsManager/Mode/SQLite.cs:597-608 | reading an encoded boolean back gives the boolean |
| DecimalText.ShowNat | SimpleSettingsManager/Mode/XML.cs:115 | the decimal text of a natural number is a non-empty string of digits |
| DecimalText.ShowInt | SimpleSettingsManager/Mode/XML.cs:115 | the decimal text of an integer is non-empty and starts with a minus sign exactly when the integer is negative |
| DecimalText.TrimStart | SimpleSettingsManager/Mode/XML.cs:677-686 | leading white space is dropped and nothing else changes |
| DecimalText.TrimEnd | SimpleSettingsManager/Mode/XML.cs:677-686 | trailing white space is dropped and nothing else changes |
| DecimalText.ParseInt | SimpleSettingsManager/Mode/XML.cs:677-686 | `Convert.ToInt*` on text returns a value within the type's range, or throws a format or overflow exception |
| DecimalText.ParseBool | SimpleSettingsManager/Mode/XML.cs:628-637 | `Convert.ToBoolean` on text returns a boolean or throws a format exception; white space (as `Char.IsWhiteSpace` has it) and NUL are trimmed |
| DecimalText.DigitsValueOfShowNat | SimpleSettingsManager/Mode/XML.cs:115 | the digits written for a natural number denote that number |
| DecimalText.ParseShowInt | SimpleSettingsManager/Mode/XML.cs:677-686 | parsing the decimal text written for an integer in range gives the integer back |
| DecimalText.ParseShowBool | SimpleSettingsManager/Mode/XML.cs:628-637 | parsing the text written for a boolean gives the boolean back |
| Utf8.EncodeChar | SimpleSettingsManager/Mode/SQLite.cs:624 | a character is encoded as one to four bytes, all but the first being continuation bytes |
| Utf8.DecodeFirst | SimpleSettingsManager/Mode/SQLite.cs:459 | decoding consumes at least one byte and no more than are there; an ASCII byte is itself; an ill-formed sequence gives one U+FFFD for its maximal subpart, as `GetString` does |
| Utf8.DecodeFirstOfEncodeChar | SimpleSettingsManager/Mode/SQLite.cs:459 | decoding the encoding of a character, with anything after it, gives that character and consumes its encoding |
| Utf8.DecodeEncode | SimpleSettingsManager/Mode/SQLite.cs:459-463 | `GetString(GetBytes(s)) == s` |
| Utf8.EncodeInjective | SimpleSettingsManager/Mode/SQLite.cs:624 | different strings have different encodings |
| Utilities.SqlEscape | SimpleSettingsManager/Utilities.cs:38-44 | escaping gives null exactly for null |
| Utilities.EscapeLength | SimpleSettingsManager/Utilities.cs:43 | escaping adds exactly one backslash per special character |
| Utilities.EscapeIdentity | SimpleSettingsManager/Utilities.cs:43 | a string without special characters is left unchanged |
| Utilities.TableNamesUnescaped | SimpleSettingsManager/Mode/SQLite.cs:877 | escaping leaves every table name unchanged |
| Utilities.UnescapeEscape | SimpleSettingsManager/Utilities.cs:43 | removing the backslashes from an escaped string gives the string back |
| Utilities.EscapeInjective | SimpleSettingsManager/Utilities.cs:43 | different strings escape to different strings |
| Utilities.HeaderBuffer | SimpleSettingsManager/Utilities.cs:48-51 | the header buffer has 17 bytes |
| Utilities.AsciiDecode | SimpleSettingsManager/Utilities.cs:53 | ASCII decoding keeps the length, maps bytes below 0x80 to their characters and every other byte to `?` |
| Utilities.DecodedMagic | SimpleSettingsManager/Utilities.cs:53-54 | thirteen bytes decode to `SQLite format` exactly when they are the SQLite magic bytes |
| Utilities.HeaderHasMagic | SimpleSettingsManager/Utilities.cs:46-55 | a file accepted as SQLite has the magic bytes within its first sixteen bytes |
| Utilities.MagicMakesHeader | SimpleSettingsManager/Utilities.cs:46-55 | a file with the magic bytes within its first sixteen bytes is accepted as SQLite |
| Utilities.SQLiteHeaderIff | SimpleSettingsManager/Utilities.cs:46-55 | a file is accepted as SQLite exactly when the magic bytes occur within its first sixteen bytes |
| Utilities.SQLiteFilePasses | SimpleSettingsManager/Utilities.cs:46-55 | the header of a real SQLite 3 file (`SQLite format 3\0`) is accepted, whatever follows it |
| TableStore.FirstRow | SimpleSettingsManager/Mode/SQLite.cs:947-959 | `reader.Read()` stops at the first row with the given name |
| TableStore.UniqueFirstRow | SimpleSettingsManager/Mode/SQLite.cs:947-959 | in a table with unique names, the first row with a name is the one row with it |
| TableStore.CreateTable | SimpleSettingsManager/Mode/SQLite.cs:1048-1113 | `CREATE TABLE IF NOT EXISTS` adds the table if it is missing and leaves every existing table alone |
| TableStore.SetValueWhere | SimpleSettingsManager/Mode/SQLite.cs:899-921 | `UPDATE … SET VariableValue … WHERE VariableName` changes the value of exactly the rows with that name |
| TableStore.EditWhere | SimpleSettingsManager/Mode/SQLite.cs:923-937 | the corrected edit changes the group and description of exactly the rows with that name |
| TableStore.SetDefaultWhere | SimpleSettingsManager/Mode/SQLite.cs:979-992 | `UPDATE … SET VariableDefault` changes the default of exactly the rows with that name |
| TableStore.DeleteWhereKeeps | SimpleSettingsManager/Mode/SQLite.cs:965-977 | `DELETE … WHERE VariableName` keeps exactly the rows with other names |
| TableStore.DeleteWhereUnique | SimpleSettingsManager/Mode/SQLite.cs:965-977 | in a table with unique names, delete removes exactly the one matching row and keeps the order of the rest |
| TableStore.DeleteWhereRowsOk | SimpleSettingsManager/Mode/SQLite.cs:965-977 | delete keeps a well-formed table well-formed, with no row of that name left |
| TableStore.ToCell | SimpleSettingsManager/Mode/SQLite.cs:873-897 | the column value stored for a setting is well-formed for its table (unsigned values are stored as blobs) |
| TableStore.NativeCell | SimpleSettingsManager/Mode/SQLite.cs:517-543 | a default written natively is still a well-formed default cell |
| TableStore.DecodeValue | SimpleSettingsManager/Mode/SQLite.cs:467-550 | decoding an entry's bytes gives a value that fits the type, or throws an argument exception because there are too few bytes |
| TableStore.DecodeEntryBytes | SimpleSettingsManager/Mode/SQLite.cs:467-550 | decoding the bytes a record holds for a value gives the value back |
| TableStore.GetVarInTable | SimpleSettingsManager/Mode/SQLite.cs:939-963 | a variable that is not there reads as null |
| TableStore.GetValue | SimpleSettingsManager/Mode/SQLite.cs:271-324 | reading a missing variable gives the type's zero (`Convert` of null), except for byte arrays, whose serialisation throws |
| TableStore.ZeroValue | SimpleSettingsManager/Mode/SQLite.cs:271-324 | the value read for a missing variable fits its type |
| TableStore.GetValueOfCell | SimpleSettingsManager/Mode/SQLite.cs:271-324 | reading a stored value gives back what `Get*` returns for it |
| TableStore.Int32RecordMislabelled | SimpleSettingsManager/Mode/SQLite.cs:662 | as written, an `Int32` record is tagged `Int16`, and the `Int32` 65536 read back as `Int16` is 0 |
| TableStore.RecordOf | SimpleSettingsManager/Mode/SQLite.cs:631-838 | corrected (Findings, SQLite.cs:662): a row becomes a record with the row's name, group and description and with the table's own type; only an unsigned table whose default is not a blob throws, with an invalid-cast exception |
| TableStore.Records | SimpleSettingsManager/Mode/SQLite.cs:631-838 | a table listing throws only with an invalid-cast exception |
| TableStore.RecordsShape | SimpleSettingsManager/Mode/SQLite.cs:631-838 | corrected (Findings, SQLite.cs:662): a listing has one record per row, in row order, each made from its row with the table's own type |
| TableStore.RecordsFail | SimpleSettingsManager/Mode/SQLite.cs:631-838 | a listing throws exactly when some row cannot be read |
| TableStore.RecordsOfOtherTables | SimpleSettingsManager/Mode/SQLite.cs:631-838 | a listing of a signed, text, blob or boolean table never throws |
| TableStore.MetaRecordsDefaultIsValue | SimpleSettingsManager/Mode/SQLite.cs:612-629 | every metadata record carries its value also as its default |
| TableStore.RecordValueDecodes | SimpleSettingsManager/Mode/SQLite.cs:631-838 | the bytes the listing gives for a stored value decode to that value |
| TableStore.TableRecords | SimpleSettingsManager/Mode/SQLite.cs:612-838 | a per-type listing is null exactly when the table does not exist |
| TableStore.TablePasses | SimpleSettingsManager/Mode/SQLite.cs:840-858 | `GetAllTypes` lists each of the twelve tables once |
| TableStore.CollectAllCollects | SimpleSettingsManager/Mode/SQLite.cs:840-858 | corrected (Findings, SQLite.cs:662): `GetAllTypes` throws exactly when some table listing does; otherwise it is the concatenation of the existing tables' listings in the source's order |
| SQLiteMode.AddMetaOutcome | SimpleSettingsManager/Mode/SQLite.cs:387-402 | `AddMetaData` returns false exactly when the name is taken, and throws exactly when there is no metadata table |
| SQLiteMode.SeedRows | SimpleSettingsManager/Mode/SQLite.cs:34-44 | a new file gets eight metadata rows |
| SQLiteMode.ToUInt64 | SimpleSettingsManager/Mode/SQLite.cs:65 | `Convert.ToUInt64` yields a value below 2^64 |
| SQLiteMode.AddSpecOk | SimpleSettingsManager/Mode/SQLite.cs:873-897 | adding keeps every table well-formed, with unique names |
| SQLiteMode.SetSpecOk | SimpleSettingsManager/Mode/SQLite.cs:899-921 | setting a value keeps every table well-formed |
| SQLiteMode.EditSpecOk | SimpleSettingsManager/Mode/SQLite.cs:923-937 | editing keeps every table well-formed |
| SQLiteMode.SetDefaultSpecOk | SimpleSettingsManager/Mode/SQLite.cs:979-992 | setting a default keeps every table well-formed |
| SQLiteMode.DeleteSpecOk | SimpleSettingsManager/Mode/SQLite.cs:965-977 | deleting keeps every table well-formed |
| SQLiteMode.AddMetaSpecOk | SimpleSettingsManager/Mode/SQLite.cs:387-402 | adding a metadata row keeps every table well-formed |
| SQLiteMode.RefreshSpecOk | SimpleSettingsManager/Mode/SQLite.cs:46-51 | refreshing the metadata on open keeps every table well-formed |
| SQLiteMode.MigrationSpecOk | SimpleSettingsManager/Mode/SQLite.cs:58-70 | recording a migration keeps every table well-formed |
| SQLiteMode.ImportSpecOk | SimpleSettingsManager/Mode/SQLite.cs:453-610 | corrected (Findings, SQLite.cs:517 and SQLite.cs:927): importing a record keeps every table well-formed |
| SQLiteMode.SetRowNamed | SimpleSettingsManager/Mode/SQLite.cs:899-921 | after a set, the named row has the new value and every other row and table is as before |
| SQLiteMode.EditRowNamed | SimpleSettingsManager/Mode/SQLite.cs:923-937 | after an edit, the named row has the new group and description and every other row and table is as before |
| SQLiteMode.SetDefaultRowNamed | SimpleSettingsManager/Mode/SQLite.cs:979-992 | after setting a default, only the named row's default has changed |
| SQLiteMode.AddRowNamed | SimpleSettingsManager/Mode/SQLite.cs:873-897 | after an add, the rows already there are unchanged and a new name reads as the added row |
| SQLiteMode.AddMetaRowNamed | SimpleSettingsManager/Mode/SQLite.cs:387-402 | after adding metadata, the rows already there are unchanged and a new name reads as the added row |
| SQLiteMode.RefreshRowNamed | SimpleSettingsManager/Mode/SQLite.cs:46-51 | refreshing on open leaves every metadata row other than the three refreshed ones unchanged |
| SQLiteMode.AddThenGet | SimpleSettingsManager/Mode/SQLite.cs:86-150 | adding a new name appends one row and then `Get*` returns the added value |
| SQLiteMode.AddRefusesTaken | SimpleSettingsManager/Mode/SQLite.cs:873-897 | adding a name that is already taken changes nothing |
| SQLiteMode.SetThenGet | SimpleSettingsManager/Mode/SQLite.cs:155-208 | after a set, `Get*` returns the new value and nothing else has changed |
| SQLiteMode.EditKeepsValue | SimpleSettingsManager/Mode/SQLite.cs:213-266 | the corrected edit changes the group and description, and `Get*` still returns what it did |
| SQLiteMode.EditAsWrittenNeverEdits | SimpleSettingsManager/Mode/SQLite.cs:923-937 | as written, edit never returns true, and on an existing variable it throws an SQL exception |
| SQLiteMode.DeleteThenGet | SimpleSettingsManager/Mode/SQLite.cs:329-382 | delete removes exactly the named row, after which `Get*` returns the zero value (byte arrays throw) |
| SQLiteMode.SeedRowsAreShaped | SimpleSettingsManager/Mode/SQLite.cs:34-44 | the seed rows are eight well-formed metadata rows with distinct names, each holding a text value and no default |
| SQLiteMode.NewFileSeeded | SimpleSettingsManager/Mode/SQLite.cs:17-32 | opening a new file gives exactly the metadata table, holding the eight seed rows, well-formed |
| SQLiteMode.RefreshTouchesThreeKeys | SimpleSettingsManager/Mode/SQLite.cs:46-51 | opening an existing file sets the format version, the load timestamp and the mode `SQLite`, and changes no other row or table |
| SQLiteMode.ThreeSetsEffect | SimpleSettingsManager/Mode/SQLite.cs:48-50 | three metadata sets on distinct keys each change only their own key |
| SQLiteMode.StampRowNamed | SimpleSettingsManager/Mode/SQLite.cs:60-61 | the migration stamp holds the clock's decimal text and changes no other row |
| SQLiteMode.CounterReads | SimpleSettingsManager/Mode/SQLite.cs:63-65 | the stored migration count reads back as the number it holds |
| SQLiteMode.MigrationCounts | SimpleSettingsManager/Mode/SQLite.cs:58-70 | recording a migration with count n stores n+1, wrapping at 2^64, and the clock's stamp |
| SQLiteMode.FirstMigrationCountsOne | SimpleSettingsManager/Mode/SQLite.cs:63-68 | the first migration creates the count with value 1 |
| SQLiteMode.MigrationNeedsMetaTable | SimpleSettingsManager/Mode/SQLite.cs:58-70 | without a metadata table, recording a migration throws and changes nothing |
| SQLiteMode.ImportThenGet | SimpleSettingsManager/Mode/SQLite.cs:453-610 | corrected (Findings, SQLite.cs:517 and SQLite.cs:927): importing a well-formed record stores exactly its name, group, value, default and description, and `Get*` returns its value |
| SQLiteMode.ImportShortValue | SimpleSettingsManager/Mode/SQLite.cs:467-550 | importing a record with too few value bytes throws an argument exception and changes nothing |
| SQLiteMode.ExportImportRow | SimpleSettingsManager/Mode/SQLite.cs:453-838 | corrected (Findings, SQLite.cs:517, SQLite.cs:662 and SQLite.cs:927): a row listed by one store and imported into another where its name is new reappears unchanged |
| SQLiteMode.CellRoundTrip | SimpleSettingsManager/Mode/SQLite.cs:631-838 | the bytes the listing gives for a stored value decode to a value that is stored as the same column value |
| SQLiteMode.NativeUnsignedDefaultUnreadable | SimpleSettingsManager/Mode/SQLite.cs:517 | as written, an unsigned row whose default was written natively cannot be listed: `(byte[])` on it throws an invalid-cast exception |
| SQLiteMode.SQLiteStore.constructor | SimpleSettingsManager/Mode/SQLite.cs:12-13 | a new store has no connection object yet and no tables |
| SQLiteMode.SQLiteStore.Open | SimpleSettingsManager/Mode/SQLite.cs:17-32 | open makes and opens a connection; a new file gets the eight seed rows, and an existing file has its three access keys refreshed |
| SQLiteMode.SQLiteStore.CreateMetaTable | SimpleSettingsManager/Mode/SQLite.cs:1042-1046 | the metadata table exists afterwards, and nothing else has changed |
| SQLiteMode.SQLiteStore.AddNewSsmMetaData | SimpleSettingsManager/Mode/SQLite.cs:34-44 | the metadata table holds exactly the eight seed rows afterwards |
| SQLiteMode.SQLiteStore.ExistingSsmMetaData | SimpleSettingsManager/Mode/SQLite.cs:46-51 | the new tables are the refresh of the old ones |
| SQLiteMode.SQLiteStore.Close | SimpleSettingsManager/Mode/SQLite.cs:53-56 | before any Open there is no connection object and close throws a null-reference exception; otherwise the connection is closed (again, if it already was); the tables never change |
| SQLiteMode.SQLiteStore.UpdateMigrationStatus | SimpleSettingsManager/Mode/SQLite.cs:58-70 | without an open connection the first command throws an invalid-operation exception and nothing changes; otherwise the outcome and the new tables are those of recording a migration |
| SQLiteMode.SQLiteStore.Add | SimpleSettingsManager/Mode/SQLite.cs:86-150 | without an open connection an invalid-operation exception and no change; otherwise the result is true exactly when the name was free; the tables are the add of the stored value |
| SQLiteMode.SQLiteStore.CreateVarTable | SimpleSettingsManager/Mode/SQLite.cs:1048-1113 | the table for the type exists afterwards, and nothing else has changed |
| SQLiteMode.SQLiteStore.AddVarToTable | SimpleSettingsManager/Mode/SQLite.cs:873-897 | true exactly when the name was free; the tables are the add of the row |
| SQLiteMode.SQLiteStore.Set | SimpleSettingsManager/Mode/SQLite.cs:155-208 | without an open connection an invalid-operation exception and no change; otherwise true exactly when the variable exists; the tables are the set |
| SQLiteMode.SQLiteStore.SetVarInTable | SimpleSettingsManager/Mode/SQLite.cs:899-921 | true exactly when the variable exists; the tables are the set |
| SQLiteMode.SQLiteStore.Edit | SimpleSettingsManager/Mode/SQLite.cs:213-266 | without an open connection an invalid-operation exception and no change; otherwise true exactly when the variable exists; the tables are the corrected edit |
| SQLiteMode.SQLiteStore.EditVarInTable | SimpleSettingsManager/Mode/SQLite.cs:923-937 | true exactly when the variable exists; the tables are the corrected edit |
| SQLiteMode.SQLiteStore.EditVarDefaultInTable | SimpleSettingsManager/Mode/SQLite.cs:979-992 | true exactly when the variable exists; the tables are the default update |
| SQLiteMode.SQLiteStore.Get | SimpleSettingsManager/Mode/SQLite.cs:271-324 | without an open connection an invalid-operation exception; otherwise the stored value; for a missing variable the type's zero, or an exception for byte arrays |
| SQLiteMode.SQLiteStore.Delete | SimpleSettingsManager/Mode/SQLite.cs:329-382 | without an open connection an invalid-operation exception and no change; otherwise true exactly when the variable existed; the tables are the delete |
| SQLiteMode.SQLiteStore.DeleteVarInTable | SimpleSettingsManager/Mode/SQLite.cs:965-977 | true exactly when the variable existed; the tables are the delete |
| SQLiteMode.SQLiteStore.AddMetaData | SimpleSettingsManager/Mode/SQLite.cs:387-402 | returns false for a taken name and throws without a metadata table; the tables are the metadata add |
| SQLiteMode.SQLiteStore.SetMetaData | SimpleSettingsManager/Mode/SQLite.cs:404-417 | true exactly when the key exists; the tables are the set of its text |
| SQLiteMode.SQLiteStore.EditMetaData | SimpleSettingsManager/Mode/SQLite.cs:419-433 | true exactly when the key exists; the tables are the corrected edit |
| SQLiteMode.SQLiteStore.DeleteMetaData | SimpleSettingsManager/Mode/SQLite.cs:435-447 | true exactly when the key existed; the tables are the delete |
| SQLiteMode.SQLiteStore.ImportDataEntry | SimpleSettingsManager/Mode/SQLite.cs:453-610 | corrected (Findings, SQLite.cs:517 and SQLite.cs:927): without an open connection an invalid-operation exception and no change; otherwise the outcome and the new tables are those of importing the record |
| SQLiteMode.SQLiteStore.GetAll | SimpleSettingsManager/Mode/SQLite.cs:612-838 | corrected (Findings, SQLite.cs:662): without an open connection an invalid-operation exception; otherwise the per-type listing of the current tables, each record tagged with its table's type |
| SQLiteMode.SQLiteStore.GetAllTypes | SimpleSettingsManager/Mode/SQLite.cs:840-858 | corrected (Findings, SQLite.cs:662): without an open connection an invalid-operation exception; otherwise the listings of the twelve types combined in the source's order |
| SQLiteMode.SQLiteStore.GetMode | SimpleSettingsManager/Mode/SQLite.cs:864-867 | `"SQLite"` |
| MarkupDoc.FindHeading | SimpleSettingsManager/Mode/XML.cs:1114-1126 | `SelectSingleNode` on a heading gives its first occurrence |
| MarkupDoc.GroupsOfAt | SimpleSettingsManager/Mode/XML.cs:1114-1126 | with unique headings, a heading's groups are those of its one occurrence |
| MarkupDoc.WithGroupsOf | SimpleSettingsManager/Mode/XML.cs:1114-1126 | replacing one heading's groups keeps headings unique and changes no other heading |
| MarkupDoc.Locate | SimpleSettingsManager/Mode/XML.cs:448 | the first variable of a name in document order |
| MarkupDoc.LocateOne | SimpleSettingsManager/Mode/XML.cs:448 | when a name occurs once, it is found at that occurrence |
| MarkupDoc.Found | SimpleSettingsManager/Mode/XML.cs:448 | `SelectNodes(…).Count == 1`: a variable is found exactly when its name occurs once under the heading |
| MarkupDoc.SetFieldText | SimpleSettingsManager/Mode/XML.cs:452 | setting one leaf's text gives that leaf the new text, and the other leaves keep theirs |
| MarkupDoc.NewVar | SimpleSettingsManager/Mode/XML.cs:111-125 | a new variable element has the name, the value text also as the default, and the description |
| MarkupDoc.SignedBounds | SimpleSettingsManager/Mode/XML.cs:677-686 | the signed range of a width is `[-2^(8w-1), 2^(8w-1)-1]` |
| MarkupDoc.ParseText | SimpleSettingsManager/Mode/XML.cs:628-724 | parsed text gives a value that fits its signed type |
| MarkupDoc.ParseShowValue | SimpleSettingsManager/Mode/XML.cs:677-686 | the text written by `Add*` for a value parses back to the value |
| MarkupDoc.ParseShowBytes | SimpleSettingsManager/Mode/XML.cs:639-648 | a byte array written as UTF-8 text reads back as the same bytes |
| MarkupDoc.Missing | SimpleSettingsManager/Mode/XML.cs:628-724 | a missing string or byte array reads as null and any other missing type as its zero |
| MarkupDoc.ValueText | SimpleSettingsManager/Mode/XML.cs:628-637 | the value text is null exactly when the variable is not found; reading a variable without a value leaf throws a null-reference exception |
| MarkupDoc.GetValue | SimpleSettingsManager/Mode/XML.cs:628-724 | a variable that is not found reads as that type's missing value |
| MarkupDoc.AddSpec | SimpleSettingsManager/Mode/XML.cs:91-133 | an add makes the heading if needed, and the heading ends up last |
| MarkupDoc.AddSpecHeadings | SimpleSettingsManager/Mode/XML.cs:91-133 | an add keeps headings unique and changes only the groups of its own heading |
| MarkupDoc.AddSpecUnique | SimpleSettingsManager/Mode/XML.cs:91-133 | an add appends the variable to its group under its heading |
| MarkupDoc.AddSpecOthers | SimpleSettingsManager/Mode/XML.cs:91-133 | an add leaves every other heading alone |
| MarkupDoc.AddToGroupFound | SimpleSettingsManager/Mode/XML.cs:100-125 | a new name added to a group is found as the added variable |
| MarkupDoc.SetSpecEffect | SimpleSettingsManager/Mode/XML.cs:446-459 | set succeeds exactly when the variable is found with a value leaf, throws exactly when it is found without one, changes nothing otherwise, and touches no other variable |
| MarkupDoc.SetThenGet | SimpleSettingsManager/Mode/XML.cs:446-459 | after a successful set, `Get*` returns the new value |
| MarkupDoc.TextBytes | SimpleSettingsManager/Mode/XML.cs:874-892 | the bytes of a listed value exist exactly when its text parses, with the type's width |
| MarkupDoc.TextBytesOfShow | SimpleSettingsManager/Mode/XML.cs:886 | the listing gives the bytes `BitConverter` gives for the value that was added |
| MarkupDoc.EntryOf | SimpleSettingsManager/Mode/XML.cs:874-892 | a listed record carries the variable's name, its group, the bytes of its value and default texts and its description; a variable without a value leaf throws a null-reference exception |
| MarkupDoc.EntryOfNewVar | SimpleSettingsManager/Mode/XML.cs:874-892 | a variable written by `Add*` is listed as the record of what was added |
| MarkupDoc.AllVarsSound | SimpleSettingsManager/Mode/XML.cs:880-888 | the listing visits only variables that are in the groups |
| MarkupDoc.AllVarsComplete | SimpleSettingsManager/Mode/XML.cs:880-888 | the listing visits every variable of every group |
| MarkupDoc.RecordsFirstThrow | SimpleSettingsManager/Mode/XML.cs:874-892 | the listing throws the exception of the first variable that cannot be read |
| MarkupDoc.TypeRecords | SimpleSettingsManager/Mode/XML.cs:874-892 | a per-type listing is null exactly when the type's heading has no groups |
| MarkupDoc.TypeRecordsMembers | SimpleSettingsManager/Mode/XML.cs:874-892 | a listed record is exactly the record of some variable under the type's heading |
| MarkupDoc.AllTypesCollects | SimpleSettingsManager/Mode/XML.cs:1044-1059 | `GetAllTypes` throws exactly when one of its nine listings throws; otherwise it is their concatenation |
| MarkupDoc.AddSpecVarAt | SimpleSettingsManager/Mode/XML.cs:91-133 | after an add of a new name, that name is found as the new variable and every other look-up is unchanged |
| MarkupDoc.AddThenGet | SimpleSettingsManager/Mode/XML.cs:268-310 | after an add of a new name, `Get*` returns the added value |
| MarkupDoc.AddThenListed | SimpleSettingsManager/Mode/XML.cs:874-892 | after an add, the type's listing contains the record of what was added |
| MarkupDoc.Prune | SimpleSettingsManager/Mode/XML.cs:1151-1167 | corrected (Findings, XML.cs:1157-1163): pruning never adds headings |
| MarkupDoc.PruneKeeps | SimpleSettingsManager/Mode/XML.cs:1151-1167 | corrected (Findings, XML.cs:1157-1163): pruning keeps exactly the headings that have groups, and keeps headings unique |
| MarkupDoc.PruneGroups | SimpleSettingsManager/Mode/XML.cs:1151-1167 | corrected (Findings, XML.cs:1157-1163): pruning changes no heading's groups |
| MarkupDoc.PruneAsWritten | SimpleSettingsManager/Mode/XML.cs:1155-1165 | as written, pruning keeps only headings that were there and keeps every heading with groups |
| MarkupDoc.PruneAsWrittenSkips | SimpleSettingsManager/Mode/XML.cs:1157-1163 | as written, of two adjacent empty headings the second survives |
| MarkupDoc.PruneAsWrittenGroups | SimpleSettingsManager/Mode/XML.cs:1155-1165 | as written, pruning still changes no heading's groups |
| MarkupDoc.DropVarAt | SimpleSettingsManager/Mode/XML.cs:1138 | removing one variable element shifts the later ones in its group and moves nothing else |
| MarkupDoc.FoundDrop | SimpleSettingsManager/Mode/XML.cs:1138 | removing one variable does not change the look-up of any other name |
| MarkupDoc.RemoveSpecEffect | SimpleSettingsManager/Mode/XML.cs:1128-1149 | the corrected removal succeeds exactly when the name is under the heading, removes it when it occurs once, and touches no other variable or heading |
| MarkupDoc.DeleteThenGet | SimpleSettingsManager/Mode/XML.cs:727-775 | corrected (Findings, XML.cs:1134-1138 and XML.cs:1157-1163): after a delete, `Get*` returns the missing value |
| MarkupDoc.FirstMetaMatch | SimpleSettingsManager/Mode/XML.cs:1134 | the first metadata group that the as-written path selects |
| MarkupDoc.RemoveAsWrittenMissesAdded | SimpleSettingsManager/Mode/XML.cs:1134-1138 | as written, a variable just added under its heading cannot be deleted: removal finds nothing and returns false |
| MarkupDoc.RemoveAsWrittenTakesSiblings | SimpleSettingsManager/Mode/XML.cs:1138 | as written, removal of one variable takes its siblings too (`RemoveAll` on the parent) |
| MarkupDoc.ItemVar | SimpleSettingsManager/Mode/XML.cs:778-819 | a metadata item becomes a variable with its name and value |
| MarkupDoc.SeedAfterNames | SimpleSettingsManager/Mode/XML.cs:1074-1099 | seeding keeps headings unique and creates only the names of the items |
| MarkupDoc.SeedAfterReads | SimpleSettingsManager/Mode/XML.cs:1074-1099 | each seeded item reads back as its own variable |
| MarkupDoc.SeedNamesDistinct | SimpleSettingsManager/Mode/XML.cs:32-39 | the eight XML seed records have distinct names |
| MarkupDoc.SeedNamesPlain | SimpleSettingsManager/Mode/XML.cs:32-39 | every seed name and group is a valid element name |
| MarkupDoc.NewFileShaped | SimpleSettingsManager/Mode/XML.cs:32-39 | the seed records alternate between the historical and last-access groups |
| MarkupDoc.SeedAfterShape | SimpleSettingsManager/Mode/XML.cs:32-39 | the seeded document is one metadata heading with the historical group (even items) and the last-access group (odd items) |
| MarkupDoc.SeedAfterIsSeedDoc | SimpleSettingsManager/Mode/XML.cs:32-39 | adding the eight seed records in order gives the seed document |
| MarkupDoc.NewFileReads | SimpleSettingsManager/Mode/XML.cs:32-39 | in a new file each seed record reads back with its own value |
| MarkupDoc.RefreshAllSteps | SimpleSettingsManager/Mode/XML.cs:41-46 | the refresh is the three metadata sets in order |
| MarkupDoc.RefreshTouchesThreeKeys | SimpleSettingsManager/Mode/XML.cs:41-46 | opening an existing file changes only the three refreshed metadata keys, and can throw only a null-reference exception |
| MarkupDoc.RefreshSetsKeys | SimpleSettingsManager/Mode/XML.cs:41-46 | when the three keys are there, the refresh succeeds and they read as the format version, the clock's stamp and `XML` |
| MarkupDoc.ThreeSets | SimpleSettingsManager/Mode/XML.cs:41-46 | three metadata sets on distinct keys each change only their own key |
| MarkupDoc.ValueTextSame | SimpleSettingsManager/Mode/XML.cs:821-834 | two documents that agree on a metadata variable read the same text for it |
| MarkupMode.XMLStore.constructor | SimpleSettingsManager/Mode/XML.cs:14-21 | a new store is not open, has an empty document and nothing saved, and has auto-save on |
| MarkupMode.XMLStore.Open | SimpleSettingsManager/Mode/XML.cs:24-47 | open leaves the store open; it needs an empty in-memory document only when it creates the file; it reloads an existing file whatever was in memory, prunes it (corrected, Findings XML.cs:1157-1163) and refreshes it, or seeds a new file; with auto-save the file holds the result |
| MarkupMode.XMLStore.AddNewMetaData | SimpleSettingsManager/Mode/XML.cs:32-39 | the document becomes the seed document |
| MarkupMode.XMLStore.SetExistingMetaData | SimpleSettingsManager/Mode/XML.cs:41-46 | the outcome and the new document are those of the refresh |
| MarkupMode.XMLStore.CreateXmlFile | SimpleSettingsManager/Mode/XML.cs:1074-1099 | reports a new file exactly when none existed; an existing one is loaded with its empty headings pruned (corrected, Findings XML.cs:1157-1163) |
| MarkupMode.XMLStore.Close | SimpleSettingsManager/Mode/XML.cs:49-52 | close is SaveXML: before Open it throws the XML exception of saving a document without a root, and changes nothing; afterwards the file holds the document; the document never changes |
| MarkupMode.XMLStore.SetAutoSave | SimpleSettingsManager/Mode/XML.cs:54-57 | sets the flag and changes nothing else |
| MarkupMode.XMLStore.GetAutoSave | SimpleSettingsManager/Mode/XML.cs:59-62 | returns the flag |
| MarkupMode.XMLStore.SaveXML | SimpleSettingsManager/Mode/XML.cs:64-67 | before Open (no path, no root) an XML exception and the file is unchanged; afterwards the file holds the document |
| MarkupMode.XMLStore.LoadXML | SimpleSettingsManager/Mode/XML.cs:69-81 | before Open (no path) the "Loading XML Failed" exception and the document is unchanged; afterwards the document is what the file holds |
| MarkupMode.XMLStore.CleanXMLFile | SimpleSettingsManager/Mode/XML.cs:83-86 | corrected (Findings, XML.cs:1157-1163): the document, reloaded when auto-save is on, loses its empty headings; the reload before Open throws "Loading XML Failed" and changes nothing |
| MarkupMode.XMLStore.DeleteEmptyParents | SimpleSettingsManager/Mode/XML.cs:1151-1167 | the corrected pruning: the document, reloaded when auto-save is on, loses exactly its empty headings; the reload before Open throws "Loading XML Failed" and changes nothing |
| MarkupMode.XMLStore.PruneEmpty | SimpleSettingsManager/Mode/XML.cs:1155-1165 | corrected (Findings, XML.cs:1157-1163): the loop advances only past a heading it keeps, and so removes exactly the empty headings |
| MarkupMode.XMLStore.Add | SimpleSettingsManager/Mode/XML.cs:91-443 | before Open the heading lookup on the missing root throws a null-reference exception and nothing changes; otherwise true exactly when the name was free under the type's heading; then the document is the add of the new variable, saved under auto-save |
| MarkupMode.XMLStore.AddMetaData | SimpleSettingsManager/Mode/XML.cs:778-819 | before Open a null-reference exception and no change; otherwise true exactly when the name was free under the metadata heading; then the document is the add |
| MarkupMode.XMLStore.AddVariable | SimpleSettingsManager/Mode/XML.cs:91-133 | before Open a null-reference exception (through XML.cs:1118) and no change; otherwise true exactly when the name was free; then the document is the add |
| MarkupMode.XMLStore.DoesVariableExist | SimpleSettingsManager/Mode/XML.cs:1101-1107 | true exactly when the name occurs under the heading |
| MarkupMode.XMLStore.Set | SimpleSettingsManager/Mode/XML.cs:446-575 | a name that is not a plain element name throws an XPath exception and changes nothing; otherwise the outcome and the document are those of the set of the value's text |
| MarkupMode.XMLStore.SetMetaData | SimpleSettingsManager/Mode/XML.cs:821-834 | the outcome and document are those of the set; on failure nothing changes |
| MarkupMode.XMLStore.SetVariable | SimpleSettingsManager/Mode/XML.cs:446-459 | the outcome and document are those of the set; on failure nothing changes |
| MarkupMode.XMLStore.Edit | SimpleSettingsManager/Mode/XML.cs:577-625 | always throws a not-implemented exception |
| MarkupMode.XMLStore.Get | SimpleSettingsManager/Mode/XML.cs:628-724 | a name that is not a plain element name throws an XPath exception; otherwise the value read from the document |
| MarkupMode.XMLStore.Delete | SimpleSettingsManager/Mode/XML.cs:727-775 | a name that is not a plain element name gives false, after the reload under auto-save; otherwise the result and document are those of the corrected removal (Findings, XML.cs:1134-1138), done on the reloaded file under auto-save |
| MarkupMode.XMLStore.DeleteMetaData | SimpleSettingsManager/Mode/XML.cs:841-844 | the result and document are those of the corrected removal under the metadata heading |
| MarkupMode.XMLStore.RemoveXmlElement | SimpleSettingsManager/Mode/XML.cs:1128-1149 | the corrected removal, then pruning, saved under auto-save; before Open the reload's exception is caught and the result is false |
| MarkupMode.XMLStore.ImportDataEntry | SimpleSettingsManager/Mode/XML.cs:849-852 | always throws a not-implemented exception |
| MarkupMode.XMLStore.GetAll | SimpleSettingsManager/Mode/XML.cs:854-1042 | the per-type listing of the document |
| MarkupMode.XMLStore.ReadGroup | SimpleSettingsManager/Mode/XML.cs:880-888 | the inner loop over one group extends the listing by that group's records, or throws what the listing throws |
| MarkupMode.XMLStore.GetAllTypes | SimpleSettingsManager/Mode/XML.cs:1044-1059 | the nine listings combined in the source's order |
| MarkupMode.XMLStore.GetMode | SimpleSettingsManager/Mode/XML.cs:1065-1068 | `"XML"` |
| Facade.ModeSelection | SimpleSettingsManager/SSM.cs:17-36 | SQLite mode picks the table store and XML mode the document store; Auto picks the table store exactly when the file has the SQLite magic in its first sixteen bytes |
| Facade.Create | SimpleSettingsManager/SSM.cs:12-40 | construction throws a file-not-found exception exactly for Auto on a missing file; otherwise the store picked is the one mode selection names |
| Facade.SSM.constructor | SimpleSettingsManager/SSM.cs:12-40 | the façade holds exactly one store, the table store exactly when mode selection picks it, fresh and not yet open |
| Facade.SSM.Open | SimpleSettingsManager/SSM.cs:42-45 | open is the open of the store held and leaves it open; in XML mode an existing file is reloaded whatever was in memory |
| Facade.SSM.Close | SimpleSettingsManager/SSM.cs:47-50 | close is the close of the store held, including SQLite's null-reference exception and XML's save exception before any Open |
| Facade.SSM.Add | SimpleSettingsManager/SSM.cs:54-102 | add is the add of the store held, including SQLite's exception without an open connection and XML's null-reference exception before Open |
| Facade.SSM.AddInt | SimpleSettingsManager/SSM.cs:64-67 | `AddInt` is the `Int32` add |
| Facade.SSM.AddLong | SimpleSettingsManager/SSM.cs:74-77 | `AddLong` is the `Int64` add |
| Facade.SSM.Set | SimpleSettingsManager/SSM.cs:107-155 | set is the set of the store held, including SQLite's exception without an open connection and XML's XPath exception for a name that is not plain |
| Facade.SSM.SetInt | SimpleSettingsManager/SSM.cs:117-120 | `SetInt` is the `Int32` set |
| Facade.SSM.SetLong | SimpleSettingsManager/SSM.cs:127-130 | `SetLong` is the `Int64` set |
| Facade.SSM.Edit | SimpleSettingsManager/SSM.cs:160-208 | edit is the edit of the store held, including SQLite's exception without an open connection |
| Facade.SSM.EditInt | SimpleSettingsManager/SSM.cs:170-173 | `EditInt` is the `Int32` edit |
| Facade.SSM.EditLong | SimpleSettingsManager/SSM.cs:180-183 | `EditLong` is the `Int64` edit |
| Facade.SSM.Get | SimpleSettingsManager/SSM.cs:213-261 | get is the get of the store held, including SQLite's exception without an open connection and XML's XPath exception for a name that is not plain |
| Facade.SSM.GetInt | SimpleSettingsManager/SSM.cs:223-226 | `GetInt` is the `Int32` get |
| Facade.SSM.GetLong | SimpleSettingsManager/SSM.cs:233-236 | `GetLong` is the `Int64` get |
| Facade.SSM.Delete | SimpleSettingsManager/SSM.cs:266-314 | delete is the delete of the store held, including SQLite's exception without an open connection and XML's false for a name that is not plain |
| Facade.SSM.DeleteInt | SimpleSettingsManager/SSM.cs:276-279 | `DeleteInt` is the `Int32` delete |
| Facade.SSM.DeleteLong | SimpleSettingsManager/SSM.cs:286-289 | `DeleteLong` is the `Int64` delete |
| MigrationStore.Store.Perform | SimpleSettingsManager/Migration/CrossModeMigration.cs:39-57 | a call on a store is journalled once, in order, and answered by the store's behaviour at that point |
| MigrationStore.Store.ReadAll | SimpleSettingsManager/Migration/CrossModeMigration.cs:42 | `GetAllTypes` is journalled and returns the store's listing unless it throws |
| MigrationStore.Listed | SimpleSettingsManager/Migration/CrossModeMigration.cs:42 | the listing read succeeds exactly when the store answers the read without an exception |
| MigrationStore.FirstThrowFrom | SimpleSettingsManager/Migration/CrossModeMigration.cs:59-63 | the index of the first planned call that throws, with every earlier one succeeding; none exactly when all succeed |
| MigrationStore.FirstThrowAfter | SimpleSettingsManager/Migration/CrossModeMigration.cs:59-63 | the first throw is found at the next call, or later, once the earlier calls succeeded |
| MigrationStore.Step | SimpleSettingsManager/Migration/CrossModeMigration.cs:47-57 | one planned call extends the journal by that call; if it throws it is the first throw |
| MigrationStore.ReadStep | SimpleSettingsManager/Migration/CrossModeMigration.cs:42 | the planned read extends the journal and returns the listing, or is the first throw |
| MigrationStore.ImportsAppend | SimpleSettingsManager/Migration/CrossModeMigration.cs:47-54 | importing one listing then another issues the imports of both, in order |
| MigrationStore.ImportsPrefix | SimpleSettingsManager/Migration/CrossModeMigration.cs:47-54 | the imports of a prefix of the listing are a prefix of all the imports |
| MigrationStore.ImportedRecordsAppend | SimpleSettingsManager/Migration/CrossModeMigration.cs:47-54 | the records imported by two journal segments are those of each, in order |
| MigrationStore.ImportsAreNonNull | SimpleSettingsManager/Migration/CrossModeMigration.cs:47-54 | the loop imports exactly the non-null records, in listing order, each as a destination import call |
| MigrationStore.ImportedRecordsPrefix | SimpleSettingsManager/Migration/CrossModeMigration.cs:47-54 | the records imported by a prefix of the journal are a prefix of all the records imported |
| CrossMigration.CrossPlan | SimpleSettingsManager/Migration/CrossModeMigration.cs:34-57 | a migration issues six fixed calls plus one import per non-null record |
| CrossMigration.NewCrossModeMigration | SimpleSettingsManager/Migration/CrossModeMigration.cs:15-27 | construction throws exactly when both files have the same mode |
| CrossMigration.CrossModeMigration.constructor | SimpleSettingsManager/Migration/CrossModeMigration.cs:15-27 | a migration between files of different modes keeps both files |
| CrossMigration.OpenAndRead | SimpleSettingsManager/Migration/CrossModeMigration.cs:36-45 | the first four calls open both stores, read the source and close it, stopping at the first throw |
| CrossMigration.ImportAll | SimpleSettingsManager/Migration/CrossModeMigration.cs:47-54 | the loop issues the import of every non-null record, stopping at the first throw |
| CrossMigration.ImportOne | SimpleSettingsManager/Migration/CrossModeMigration.cs:49-53 | one turn of the loop issues one import, or none for a null record |
| CrossMigration.StampAndClose | SimpleSettingsManager/Migration/CrossModeMigration.cs:55-57 | the migration stamp and the destination's close come last |
| CrossMigration.CrossModeMigration.Migrate | SimpleSettingsManager/Migration/CrossModeMigration.cs:32-64 | the journal is the plan up to and including the first call that throws (all of it when none does), and the result is a migration-failed exception exactly when a call threw |
| CrossMigration.SourceDoneBeforeImports | SimpleSettingsManager/Migration/CrossModeMigration.cs:39-54 | the source is read and closed before any import, and every import goes to the destination |
| CrossMigration.ImportsEachRecordOnce | SimpleSettingsManager/Migration/CrossModeMigration.cs:47-54 | a migration imports every non-null record of the source exactly once, in order |
| CrossMigration.StampedOnceThenClosed | SimpleSettingsManager/Migration/CrossModeMigration.cs:55-57 | the stamp is issued once, after every import, and the destination's close is the last call |
| CrossMigration.FailureLeavesDestinationOpen | SimpleSettingsManager/Migration/CrossModeMigration.cs:59-63 | a migration that stops early never closes the destination, and what it imported is a prefix of the records |
| ForeignMigration.ForeignTagInjective | SimpleSettingsManager/Migration/XmlSettingsMigration.cs:119-337 | the eleven extractors select distinct element tags |
| ForeignMigration.SelectedMembers | SimpleSettingsManager/Migration/XmlSettingsMigration.cs:121-127 | `SelectNodes` picks exactly the variables of the sections with the tag |
| ForeignMigration.AllChildrenMembers | SimpleSettingsManager/Migration/XmlSettingsMigration.cs:127-133 | the nested loops visit exactly the child nodes of the selected variables |
| ForeignMigration.UnsignedBytes | SimpleSettingsManager/Migration/XmlSettingsMigration.cs:191 | `Convert.ToUInt*` then `GetBytes` succeeds exactly when the text parses in range, giving width bytes for the parsed number, or throws a format or overflow exception |
| ForeignMigration.UnsignedBytesOfShow | SimpleSettingsManager/Migration/XmlSettingsMigration.cs:191 | the decimal text of an unsigned value gives back its bytes |
| ForeignMigration.ForeignBytes | SimpleSettingsManager/Migration/XmlSettingsMigration.cs:131 | converted integer text has the type's width; a failure is a format or overflow exception |
| ForeignMigration.ForeignBytesOfShow | SimpleSettingsManager/Migration/XmlSettingsMigration.cs:131 | the text of a value converts to the bytes the SSM stores use for it |
| ForeignMigration.ChildEntry | SimpleSettingsManager/Migration/XmlSettingsMigration.cs:131 | a child node becomes a record exactly when its text and the variable's `default` attribute convert; a missing attribute throws a null-reference exception; the record is named after the variable, in group `default`, described by its name |
| ForeignMigration.ChildRecordsFirstThrow | SimpleSettingsManager/Migration/XmlSettingsMigration.cs:127-133 | an extractor throws the exception of the first child that cannot be converted |
| ForeignMigration.ChildRecordsMembers | SimpleSettingsManager/Migration/XmlSettingsMigration.cs:127-133 | a record is listed exactly when it is the record of some visited child |
| ForeignMigration.ForeignRecords | SimpleSettingsManager/Migration/XmlSettingsMigration.cs:119-137 | an extractor returns null exactly when no variable has its tag |
| ForeignMigration.ForeignRecordsMembers | SimpleSettingsManager/Migration/XmlSettingsMigration.cs:119-137 | an extractor lists exactly the records of the children of the variables with its tag |
| ForeignMigration.ChildRecordsSound | SimpleSettingsManager/Migration/XmlSettingsMigration.cs:127-133 | every listed record comes from some child of a selected variable |
| ForeignMigration.ChildRecordsComplete | SimpleSettingsManager/Migration/XmlSettingsMigration.cs:127-133 | when the extractor succeeds, every child of a selected variable is listed |
| ForeignMigration.ForeignOrderComplete | SimpleSettingsManager/Migration/XmlSettingsMigration.cs:343-356 | every foreign type has an extraction task |
| ForeignMigration.ForeignPasses | SimpleSettingsManager/Migration/XmlSettingsMigration.cs:343-356 | one task per foreign type |
| ForeignMigration.CollectedMembers | SimpleSettingsManager/Migration/XmlSettingsMigration.cs:339-360 | a record is collected exactly when some extractor lists it; an extractor that throws contributes nothing |
| ForeignMigration.CollectedShape | SimpleSettingsManager/Migration/XmlSettingsMigration.cs:339-360 | every collected record is in group `default`, described by its name, not metadata, and comes from some child node |
| ForeignMigration.ImportsOf | SimpleSettingsManager/Migration/XmlSettingsMigration.cs:56-63 | one destination import per collected record, in order |
| ForeignMigration.XmlPlan | SimpleSettingsManager/Migration/XmlSettingsMigration.cs:49-64 | the plan is open, one import per record, then the migration stamp |
| ForeignMigration.ImportsOfRecords | SimpleSettingsManager/Migration/XmlSettingsMigration.cs:56-63 | the imports carry exactly the collected records |
| ForeignMigration.XmlPlanImportsEachRecordOnce | SimpleSettingsManager/Migration/XmlSettingsMigration.cs:49-64 | the plan imports every collected record exactly once, in order |
| ForeignMigration.ClosedOnceAfterOpen | SimpleSettingsManager/Migration/XmlSettingsMigration.cs:49-74 | open comes first; if open throws nothing else is called; otherwise close is called exactly once, last |
| ForeignMigration.XmlCallsShape | SimpleSettingsManager/Migration/XmlSettingsMigration.cs:49-74 | the calls are the plan up to the first throw, then close (unless open threw) |
| ForeignMigration.XmlPlanStampLast | SimpleSettingsManager/Migration/XmlSettingsMigration.cs:64 | the stamp is the one call after all imports |
| ForeignMigration.StampedAfterEveryImport | SimpleSettingsManager/Migration/XmlSettingsMigration.cs:56-64 | the stamp is issued exactly when every earlier call succeeded, and then every record was imported |
| ForeignMigration.FailureKeepsImportedPrefix | SimpleSettingsManager/Migration/XmlSettingsMigration.cs:66-70 | a migration that stops imports a prefix of the records |
| ForeignMigration.ReturnedMigrationImportedAll | SimpleSettingsManager/Migration/XmlSettingsMigration.cs:44-75 | a migration that returns normally imported every record and stamped the file |
| ForeignMigration.NewXmlSettingsMigration | SimpleSettingsManager/Migration/XmlSettingsMigration.cs:26-39 | construction throws exactly when the file is missing or is not XML |
| ForeignMigration.XmlSettingsMigration.constructor | SimpleSettingsManager/Migration/XmlSettingsMigration.cs:26-39 | keeps the path and destination file, with no document loaded |
| ForeignMigration.XmlSettingsMigration.LoadXml | SimpleSettingsManager/Migration/XmlSettingsMigration.cs:85-98 | loading a readable file makes it the document; an unreadable one throws and keeps the old document |
| ForeignMigration.XmlSettingsMigration.GetAll | SimpleSettingsManager/Migration/XmlSettingsMigration.cs:119-337 | the extractor's loops compute the extractor's listing |
| ForeignMigration.XmlSettingsMigration.ReadElement | SimpleSettingsManager/Migration/XmlSettingsMigration.cs:127-133 | the inner loop over one variable's children extends the listing, or throws what the listing throws |
| ForeignMigration.XmlSettingsMigration.ReadChild | SimpleSettingsManager/Migration/XmlSettingsMigration.cs:131 | one child is converted and appended, or its exception is the listing's |
| ForeignMigration.XmlSettingsMigration.GetAllTypes | SimpleSettingsManager/Migration/XmlSettingsMigration.cs:339-360 | the collection of all eleven extractors |
| ForeignMigration.XmlSettingsMigration.RunTask | SimpleSettingsManager/Migration/XmlSettingsMigration.cs:345-355 | one task adds its extractor's records, or nothing when it throws or returns null |
| ForeignMigration.XmlSettingsMigration.Migrate | SimpleSettingsManager/Migration/XmlSettingsMigration.cs:44-75 | an unreadable file throws before any call; otherwise the journal is the plan up to the first throw followed by close, and the result is the wrapped failure, or close's exception |
| ForeignMigration.CloseAfterTry | SimpleSettingsManager/Migration/XmlSettingsMigration.cs:66-74 | the `finally` close comes after the tried calls, and its exception replaces the result |

## Left out

- Files, the SQLite engine and `XmlDocument` are abstracted. A table store is a map of row sequences, and an XML file is a tree value. What a file holds when it is opened, and what is saved, are explicit values.
- Floating-point settings (`float`, `double`) are opaque byte patterns. Their text form in the XML mode comes from the `FloatText` parameter, so no property about float text is claimed.
- Strings are sequences of Unicode scalar values; strings with unpaired UTF-16 surrogates are not modelled. `Encoding.UTF8.GetBytes` replaces such a surrogate with EF BF BD, so for them the round trip of Utf8.DecodeEncode would not hold.
- The SQLite connection is one of three states: none before the first Open, open, and closed after Close. Errors the engine raises on an open connection (a locked or damaged file) are not modelled.
- Text formats are modelled by `DecimalText` for ASCII decimal digits with optional sign and white space. Culture-specific formats, thousands separators and hexadecimal are not modelled.
- `Logging.cs` and console output are left out; they do not change what the library stores.
- `OldVersionMigration.cs` and `Utilities.GetVersion` are left out. Versions are parameters.
- `Utilities.GetUnixTimestamp` is the parameter `now`. One reading stands for every clock read of one call: the source reads the clock separately for the creation and last-loaded stamps of a new file (SQLite.cs:40-41, XML.cs:36-37) and for the migration stamp (SQLite.cs:59-60), which can differ by a second.
- `Utilities.ObjectToByteArray` (`BinaryFormatter`) is the parameter `serialize`.
- `SSM_File` is not part of this model; a file is its path and its mode.
- `Utilities.IsFileXML` is not part of this model; it is the parameter `isXml` of `NewXmlSettingsMigration`.
- `LoadXmlDeclaration` (both `XML.cs` and `XmlSettingsMigration.cs`): the declaration node is never read back, so it is not modelled.
- Construction of the stores inside the migrations (`new SSM(...)`) is not modelled. A migration is given its stores, and their behaviour is an answer per call.
- The eleven extraction tasks of `XmlSettingsMigration.GetAllTypes` run in parallel in the source. The model runs them in order. `ForeignMigration.CollectedMembers` therefore claims which records are collected, not their order.
- `SSM.cs` has no unsigned, `GetAllTypes`, `ImportDataEntry` or migration-status methods in this version of the file. The façade models only the methods that file has; the migrations talk to the stores directly.
- `SSM.cs`'s `default` branch of the mode switch cannot be reached, because the mode is one of three values. It is not modelled.
- The null check in the loop of `XmlSettingsMigration.Migrate` never fails, because the extractors never list null. The plan therefore has one import per collected record.
- The exception messages and the `Console.WriteLine` in the migrations' `catch` blocks are left out. A failure is `Threw(MigrationFailed)`.
- MarkupMode.XMLStore.Add: requires names and groups to be valid XML element names, and so do Facade.SSM.Add, AddInt and AddLong in XML mode. The source builds an XPath from them, and for other names `XmlDocument` throws an exception that is not modelled.
- MarkupMode.XMLStore.Set, Get and Delete (and Facade.SSM.Set*, Get*, Delete* in XML mode): a name that is not a plain element name is modelled as a query that `SelectNodes` rejects: Set and Get throw an XPath exception, Delete returns false. A name that is itself a valid XPath step (`*`, `a/b`, `a[1]`) is evaluated by the source as XPath and selects other nodes; that evaluation is not modelled.
- MarkupMode.XMLStore.Open: requires an existing file's headings to be distinct, as every file the library writes has them (`AddToHeadingNode` creates a heading only when none exists); a hand-edited file with a repeated heading is not modelled. Facade.SSM.Open inherits this, and the SQLite mode has the matching `TablesOk` line below.
- MarkupMode.XMLStore.Open: creating a missing file needs the in-memory document empty, since a second `SSM` root cannot be appended; that is so on a freshly constructed object, and Open after Close on a file that has since been deleted is not modelled.
- DecimalText.ParseBool: letter case is folded for ASCII letters only. `OrdinalIgnoreCase` also folds the few non-ASCII letters whose upper case is an ASCII letter (U+017F to `S`), so text such as `falſe` is not modelled.
- SQLiteStore and XMLStore run the corrected definitions of the Findings: `EditSpec` for the missing `SET`, `RecordOf` for the record tags, `ToCell` for imported unsigned defaults, `Prune` for the pruning loop and `RemoveSpec` for the removal. The behaviour as written exists only in the as-written members named in the Findings table (`EditAsWritten`, `RecordTagAsWritten`, `NativeCell`, `PruneAsWritten`, `RemoveAsWritten`).
- MarkupMode.XMLStore.DeleteEmptyParents: the outer loop of the source also visits the XML declaration node, which never has children. The model visits only the headings.
- SQLiteMode.SQLiteStore.Open: the SQLite mode reads the `_MetaData` table by name. A file whose tables are not well-formed (duplicate names, cells of the wrong kind) is excluded by `TablesOk`.
- Concurrency between processes sharing one settings file is left out.

## Findings

| source | as written | input that shows it | evidently intended | confidence | as-written member | corrected member |
|---|---|---|---|---|---|---|
| SimpleSettingsManager/Mode/SQLite.cs:927 | `EditVarInTable` builds `UPDATE <table> VariableGroup = …` without `SET`, which is not valid SQL | any `Edit*` call on an existing variable: the statement throws an SQL exception, so edit never returns true | `UPDATE … SET VariableGroup = @group, VariableDesc = @desc WHERE VariableName = @name` | high, not executed | SQLiteMode.EditAsWrittenNeverEdits | SQLiteMode.EditKeepsValue |
| SimpleSettingsManager/Mode/SQLite.cs:662 | `GetAllInt32` tags its records `typeof(Int16)` (and `GetAllUInt32` at line 719 tags them `UInt16`) | an `Int32` variable holding 65536: its record says `Int16`, so an import reads its first two bytes and gets 0 | records tagged with their own table's type | high, not executed | TableStore.Int32RecordMislabelled | TableStore.RecordOf |
| SimpleSettingsManager/Mode/SQLite.cs:517 | importing an `UInt16`/`UInt32`/`UInt64` record writes the default natively through `EditVarDefaultInTable` (also lines 530 and 543), while values are stored as blobs | an imported `UInt16` variable: the next `GetAllUInt16` casts the default to `byte[]` and throws an invalid-cast exception | the default stored as a blob like the value | medium, not executed | SQLiteMode.NativeUnsignedDefaultUnreadable | SQLiteMode.ExportImportRow |
| SimpleSettingsManager/Mode/XML.cs:1134-1138 | `RemoveXmlElement` looks for the variable under the metadata heading, in a group named after the type, and calls `RemoveAll` on the variable's parent | a variable just added with `AddInt16("a", …)`: `DeleteInt16("a")` finds nothing and returns false; with two variables in one such group, removing one removes both | remove exactly the one variable under its type's heading | high, not executed | MarkupDoc.RemoveAsWrittenMissesAdded | MarkupDoc.RemoveSpecEffect |
| SimpleSettingsManager/Mode/XML.cs:1157-1163 | `DeleteEmptyParents` removes children while iterating forward by index, so the element after a removed one is skipped | two adjacent empty headings `Int16`, `Int32`: the second survives | every empty heading removed | high, not executed | MarkupDoc.PruneAsWrittenSkips | MarkupDoc.PruneKeeps |
