# A model of the AgentX proxy

The proxy speaks the PostgreSQL wire protocol and ClickHouse's native protocol to clients and sends
MySQL statements to one database. This project models its stateful and algorithmic core in Dafny and
proves what that core guarantees, and, where a promise fails, the exact condition under which it holds.

Run `dafny verify dfyconfig.toml`.

| file | what it models |
|---|---|
| `Connection.dfy`, `ConnectionRuns.dfy`, `ConnectionAnswers.dfy` | a PostgreSQL connection: prepared statements, portals, the described set, the transaction flags, the messages sent; theorems over all runs; what each text is answered with |
| `Queries.dfy`, `QueryTexts.dfy`, `Replies.dfy`, `ParamOids.dfy` | how queries are told apart, what each is answered with, how parameter types are resolved |
| `WriteBuffer.dfy`, `BufferThreads.dfy` | the ClickHouse write buffer, one operation at a time and under interleaved threads |
| `BatchInserts.dfy`, `TableNames.dfy` | merging INSERT statements, and the same by the names of the tables as written |
| `Varint.dfy`, `NativeBlock.dfy` | LEB128 integers, length-prefixed strings, the native data block |
| `PgWire.dfy`, `PgRows.dfy`, `BinaryArray.dfy` | PostgreSQL framing and parsing, result rows, binary array parameters |
| `DoubleQuotes.dfy`, `QuotedTexts.dfy`, `ArrayLiteral.dfy`, `Placeholders.dfy`, `ParamLiterals.dfy`, `ColumnSplit.dfy`, `ColumnNames.dfy` | the hand-written scanners, and what they read from the side of the text |
| `Upsert.dfy`, `LimitBy.dfy` | ON CONFLICT, LIMIT N BY and FINAL over tables of rows |
| `Bytes.dfy`, `Texts.dfy`, `Sequences.dfy`, `Wrappers.dfy` | fixed-width integers, Go's string functions, joining and flattening, Option and Result |

How the model is built:

- Code that changes state or loops is a method or a class, proved equal to a specification function; the
  properties are lemmas about that function. `Connection.Session` keeps references to statement objects that
  are updated in place, and `Connection.HandleConn` proves that it follows the state machine on values.
- Which class a text falls into is a function with the code's branches (`Queries`); `QueryTexts` says the same
  from the words of the text, and the theorems over runs speak of those words.
- MySQL, the pg_catalog tables and the SQL translator are oracles: every statement holds for all their
  answers. Writes to a socket succeed.
- Text is a sequence of characters and case mapping is that of ASCII. Bytes are integers from 0 to 255, and
  widths, truncation and two's complement are written out.
- A body or an array too short for its own counts makes Go panic; the model returns `None` there.

Where the code differs from its comments or documentation, the model follows the code:

- `sendNativeResponse` says its data is columnar and writes it row by row (`NativeBlock.SendersAgreeExactlyOnThinShapes`).
- A successful COMMIT leaves the failed flag set, so the status reads `E` with no transaction open (`ConnectionRuns.FailedAfterCommit`).
- ROLLBACK TO SAVEPOINT has a case that compares a 22-character slice with a 21-character text; `set session_replica` compares 18 with 19. Neither is ever taken (`Queries.DeadCases`).
- The comment on stripping LIMIT BY says unique rows make it safe; what it takes is that no partition of the BY columns has more than N rows (`LimitBy.StrippingExactly`, `LimitBy.DistinctRowsNotEnough`). The product document asks for a window ordered by time, and the rewrite has no ORDER BY, so which rows survive is MySQL's choice (`LimitBy.RewriteExactly`).
- The last strip of `` `public`. `` works on text and also edits string literals that contain it (`DoubleQuotes.StripExactly`, `DoubleQuotes.StripEditsLiterals`).
- The binary array decoder's comment says it reads PostgreSQL's binary arrays, but its layout has a bitmap that PostgreSQL's array_send does not write: an array of one to eight elements as PostgreSQL sends it becomes a list of nulls (`BinaryArray.SentArrayIsNulls`). The other properties of the decoder are about the layout it assumes.
- ON DUPLICATE KEY UPDATE drops the conflict target, and MySQL assigns from left to right (`Upsert.DoUpdateExactly`, `Upsert.AssignmentsAgreeExactly`).
- Array literals are printed without quotes, so some lists do not come back (`ArrayLiteral.RoundTripExactly`).
- The descending substitution of parameters works on text, so a placeholder can swallow digits put in after it, and a value can hold a placeholder (`Placeholders.SubstitutionExactly`, `Placeholders.TextParameters`).
- Grouping INSERT statements goes by the spelling of the table name, and without a column list the keyword VALUES belongs to it, so a table inserted into with and without columns gives two statements (`TableNames.MergesExactlyByName`, `TableNames.KeyOfName`).
- A DEALLOCATE that mentions an advisory lock is answered with a row and no ReadyForQuery (`ConnectionAnswers.SimpleAnswersByText`).
- A binary parameter of 2, 4 or 8 bytes is taken for an unsigned integer whatever its type, and only the first format code is looked at (`ParamLiterals.BinaryDenotes`).
- Parsing a new text under a described statement name leaves the name marked as described (`ConnectionRuns.ReparsedIsNeverDescribed`).
- After an error in the extended protocol the server sends ReadyForQuery at once instead of skipping to the next Sync as section 55.2.3 of the PostgreSQL 16 documentation says (`ConnectionRuns.ErrorThenReady`).

## Model

| member | source | states |
|---|---|---|
| Connection.HandleConn | internal/proxy/postgresql/server.go:204-237 | for every run of messages, the server's objects, references and array updates included, are in the state the value state machine reaches: statements, portals, described set, flags and every message sent |
| Connection.Session.Turn | internal/proxy/postgresql/server.go:215-236 | one turn of the loop: the handler's messages, and after a failure an ErrorResponse and a ReadyForQuery with the status after the failure |
| Connection.Session.HandleMessage | internal/proxy/postgresql/server.go:239-277 | each message type runs its handler; Flush, Terminate, passwords and unknown types change and send nothing |
| Connection.Session.HandleSimpleQuery | internal/proxy/postgresql/server.go:279-297 | flags and messages of the query, then ReadyForQuery with the new status unless the query failed or is DEALLOCATE; which text gets which answer is ConnectionAnswers.CommandAnswers and SimpleAnswersByText |
| Connection.Session.HandleParse | internal/proxy/postgresql/server.go:299-310 | the name points to a new object; older objects, and the portals on them, are untouched |
| Connection.Session.HandleBind | internal/proxy/postgresql/server.go:312-329 | fails without the statement; otherwise the portal points at the statement's object and copies the described mark as it is now |
| Connection.Session.HandleExecute | internal/proxy/postgresql/server.go:331-341 | fails without the portal; otherwise answers for the text of the object the portal points at, changing nothing else |
| Connection.Session.HandleDescribe | internal/proxy/postgresql/server.go:343-434 | fails without the statement; otherwise sends the resolved OIDs, stores them in the shared object only, and marks the name exactly when columns were sent |
| Connection.Session.HandleCloseStatement | internal/proxy/postgresql/server.go:797-806 | removes the name, keeps every portal and object and the described mark |
| Connection.Session.HandleClosePortal | internal/proxy/postgresql/server.go:797-806 | removes the portal and nothing else |
| Connection.Session.ExecuteTransaction | internal/proxy/postgresql/server.go:839-904 | both flags and the messages after each transaction command, for success and failure, with the assignments in the code's order |
| Connection.Session.ExecutePlain | internal/proxy/postgresql/server.go:808-960 | the messages of every other branch of executeQuery; the flags are not touched |
| Connection.Session.ExecutePrepared | internal/proxy/postgresql/server.go:962-1073 | the messages of executePreparedStatement, with the parameters of a catalog query substituted by the descending loop; which text goes to the catalog and which to MySQL is ConnectionAnswers.ExecuteAnswersByText |
| Connection.Session.ExecuteMySQLQuery | internal/proxy/postgresql/server.go:1197-1292 | a write answers with its tag; a query with an optional RowDescription, its rows, and SELECT with their number; an error after k rows leaves k rows sent |
| Connection.Session.ExecuteParameterized | internal/proxy/postgresql/server.go:1294-1402 | the same, and a query MySQL refuses is tried once more as a statement |
| Connection.Session.ExecuteWriteReturning | internal/proxy/postgresql/server.go:1528-1617 | the rows selected back, never a RowDescription, and the tag INSERT 0 1 |
| Connection.Session.ExecuteCatalogQuery | internal/proxy/postgresql/server.go:1113-1195 | a built table respects the described mark; a query passed through to MySQL loses it |
| Connection.Session.HandleShow | internal/proxy/postgresql/server.go:1404-1428 | a known setting answers one row tagged SHOW 1; another SHOW runs on MySQL |
| Connection.Session.DescribeObject | internal/proxy/postgresql/server.go:354-388 | the object's OIDs become the resolved list, in place, and every other object keeps its own |
| Queries.DeallocateIsLocal | internal/proxy/postgresql/server.go:911-913 | a DEALLOCATE is only acknowledged, so it cannot fail |
| Queries.DeadCases | internal/proxy/postgresql/server.go:896-905 | the rollback-to-savepoint case and the session_replica test are never taken; no text beginning with rollback to savepoint is handled as a transaction command |
| QueryTexts.NormalizePads | internal/proxy/postgresql/server.go:1432-1437 | normalizing drops one trailing zero byte, then the spaces around the text, then the case of letters |
| QueryTexts.NormalParts | internal/proxy/postgresql/server.go:1432-1437 | every text is a trimmed middle between spaces with or without one more zero byte, so the previous row covers every text |
| QueryTexts.CommandsExactly | internal/proxy/postgresql/server.go:839-905 | for every text, without the order of the branches: BEGIN is begin, COMMIT is commit, commit work or end, ROLLBACK is rollback or rollback work, SAVEPOINT and RELEASE are told by their first words unless an advisory lock is mentioned, and no text is ROLLBACK TO SAVEPOINT |
| QueryTexts.SettingsExactly | internal/proxy/postgresql/server.go:808-938 | an if and only if in the words of the text for each of: nothing to run, CREATE SCHEMA, DO, advisory locks, DEALLOCATE, the three kinds of SET, and the two kinds of SHOW |
| QueryTexts.OthersExactly | internal/proxy/postgresql/server.go:935-960 | every other text goes to the catalog exactly when it mentions one of nineteen names in any case, else is answered with the version or translated |
| QueryTexts.PreparedExactly | internal/proxy/postgresql/server.go:962-1042 | for every text of a portal: a lock, startup or version marker, a catalog name, or MySQL, each an if and only if on the words |
| QueryTexts.DescribeExactly | internal/proxy/postgresql/server.go:391-426 | which texts have fixed columns, the columns of a SELECT, those of RETURNING, or none |
| QueryTexts.WritesExactly | internal/proxy/postgresql/server.go:1439-1447 | a statement is executed rather than queried exactly when its first word, in any case, is one of six |
| QueryTexts.TagsExactly | internal/proxy/postgresql/server.go:1449-1467 | the tag names the first word; after INSERT, UPDATE and DELETE stands a decimal text of exactly the number of rows |
| QueryTexts.PlainStays | internal/proxy/postgresql/server.go:443-446 | before a query is described, text up to a dollar sign is kept |
| QueryTexts.DollarBecomesNull | internal/proxy/postgresql/server.go:443-446 | a dollar sign with its longest run of digits becomes NULL, and one without digits stays |
| QueryTexts.PlaceholderCounts | internal/proxy/postgresql/server.go:451-468 | each placeholder raises the number of parameters to its own number, leading zeros or not |
| Replies.SimpleAnswers | internal/proxy/postgresql/server.go:808-960 | every answer of executeQuery: no ErrorResponse or ReadyForQuery; a tag SELECT n means the whole answer is at most one RowDescription, n DataRows and the tag |
| Replies.PreparedAnswers | internal/proxy/postgresql/server.go:962-1073 | the same for every answer to a portal |
| Replies.PortalDescribesOnce | internal/proxy/postgresql/server.go:1149-1170 | a described portal sends no RowDescription except when the catalog passes the query through; otherwise at most one, and exactly one with a select |
| ConnectionRuns.StatusIsHistory | internal/proxy/postgresql/server.go:839-904 | in every run both flags and the status are told from the texts of the messages and MySQL's refusals: failed when some refusal has not been cleared since, else open when some begin or savepoint text is not closed yet by commit, commit work, end, rollback or rollback work |
| ConnectionRuns.StatusWithoutFailure | internal/proxy/postgresql/server.go:1469-1477 | when no begin, savepoint or release text was refused the status is T exactly when a begin or savepoint is not yet closed, else I |
| ConnectionRuns.ExtendedKeepsFlags | internal/proxy/postgresql/server.go:239-277 | messages of the extended protocol never change the transaction flags |
| ConnectionRuns.CommitKeepsFailure | internal/proxy/postgresql/server.go:853-863 | after a successful COMMIT no transaction is open and the status is E exactly when it was failed before |
| ConnectionRuns.FailedAfterCommit | internal/proxy/postgresql/server.go:853-863 | BEGIN, a refused SAVEPOINT and a successful COMMIT end with status E and no open transaction |
| ConnectionRuns.ReadyForQueryCount | internal/proxy/postgresql/server.go:214-297 | in every run the ReadyForQuery messages number one for startup, one for each Sync, each simple query other than DEALLOCATE, and each failed extended message |
| ConnectionRuns.StepSends | internal/proxy/postgresql/server.go:225-235 | what a message adds: an answer, then nothing, a ReadyForQuery, or an ErrorResponse and a ReadyForQuery, always with the status after the message |
| ConnectionRuns.ErrorThenReady | internal/proxy/postgresql/server.go:225-235 | in every run each ErrorResponse is followed at once by a ReadyForQuery |
| ConnectionRuns.SelectCountsRows | internal/proxy/postgresql/server.go:1262-1291 | in every run a tag SELECT n stands right after exactly n DataRows, and the message before them is not a DataRow |
| ConnectionRuns.SelectIsWhole | internal/proxy/postgresql/server.go:1149-1194 | the message that produced a tag SELECT n was answered by at most one RowDescription, n DataRows, the tag, and at most a ReadyForQuery |
| ConnectionRuns.NamesAreHistory | internal/proxy/postgresql/server.go:299-341 | in every run a name refers to its latest Parse, a portal to the text, parameters and mark of its Bind, and a name is marked exactly when some Describe of it sent columns |
| ConnectionRuns.LastParseExactly | internal/proxy/postgresql/server.go:303-307 | the Parse a name refers to is the only one that was neither repeated nor closed since |
| ConnectionRuns.LastBindExactly | internal/proxy/postgresql/server.go:319-326 | the Bind a portal comes from is the only one that named an existing statement and was neither repeated nor closed since |
| ConnectionRuns.ExecuteRunsBound | internal/proxy/postgresql/server.go:331-341 | Execute runs the text of the latest Parse of the statement name before the portal's Bind, even when it was parsed again or closed since; it fails exactly when there is no such Bind |
| ConnectionRuns.DescribedGrows | internal/proxy/postgresql/server.go:389-425 | no message removes a name from the described set |
| ConnectionRuns.RowDescriptionOnce | internal/proxy/postgresql/server.go:319-326 | a portal bound after its name was described sends no RowDescription, the catalog pass-through apart; bound before, at most one, and exactly one with a select |
| ConnectionRuns.ReparsedIsNeverDescribed | internal/proxy/postgresql/server.go:303-326 | Parse, Describe, Parse of another text, Bind, Execute: the new text's rows come without a RowDescription |
| ConnectionRuns.OidsAreHistory | internal/proxy/postgresql/server.go:354-388 | in every run no two names share an object, and the types a statement holds are the client's until its first Describe and the list that Describe resolved ever after |
| ConnectionRuns.FirstDescribeIs | internal/proxy/postgresql/server.go:343-388 | the Describe that counts is the first one of the name after its latest Parse |
| ConnectionRuns.DescribesSendFirst | internal/proxy/postgresql/server.go:383-388 | in every run each Describe of a name since its latest Parse sends the list of the first, whatever the catalog answers later and whatever other names and portals do |
| ConnectionAnswers.CommandAnswers | internal/proxy/postgresql/server.go:839-905 | after every run, a transaction command is answered with its own tag and the new status when MySQL accepts it and fails otherwise; BEGIN inside a transaction, COMMIT and ROLLBACK outside one get only ReadyForQuery |
| ConnectionAnswers.SimpleAnswersByText | internal/proxy/postgresql/server.go:808-960 | after every run, the full answer to every other simple query told from its words, with ReadyForQuery unless it failed or begins with DEALLOCATE |
| ConnectionAnswers.ExecuteAnswersByText | internal/proxy/postgresql/server.go:962-1042 | after every run, the full answer to a portal told from the words of the text parsed before its Bind: one fixed row, the catalog's table, failure or pass-through, or MySQL's rows, tag or failure |
| ConnectionAnswers.ExecuteIgnores | internal/proxy/postgresql/server.go:962-1042 | with a marker the answer depends on nothing else; with a catalog name it does not depend on the translator; with neither it does not depend on the catalog |
| ConnectionAnswers.DescribeAnswersByText | internal/proxy/postgresql/server.go:343-434 | after every run, Describe of a name sends RowDescription or NoData by the words of the text the name refers to |
| ParamOids.PreparedStmt.DescribeParameters | internal/proxy/postgresql/server.go:354-388 | the list sent is the list stored; a client's list of two or more is overwritten in the array it lies in |
| ParamOids.FillIn | internal/proxy/postgresql/server.go:369-375 | unknown entries take the inferred OIDs in place, the others stay |
| ParamOids.DefaultToText | internal/proxy/postgresql/server.go:377-382 | what is still unknown becomes text in place, the rest stays |
| ParamOids.NoneUnknown | internal/proxy/postgresql/server.go:354-388 | no OID sent is 0; there are as many as the client gave, or else as the highest placeholder |
| ParamOids.GivenKept | internal/proxy/postgresql/server.go:361-382 | each known OID is kept; an unknown one becomes oid for a pg_type look-up, the inferred type of an INSERT, or text |
| ParamOids.CountedKept | internal/proxy/postgresql/server.go:354-382 | the same for each parameter counted from the text when the client gave none |
| ParamOids.TypeWords | internal/proxy/postgresql/server.go:361-369 | a pg_type look-up and an INSERT are told by their words in any case |
| ParamOids.SecondDescribe | internal/proxy/postgresql/server.go:383-388 | a second Describe sends the same list whatever the catalog answers by then |
| ParamOids.InferInsertParamTypes | internal/proxy/postgresql/server.go:482-521 | nothing when the lists differ in length or no value is a bare placeholder of a known column; else one entry a parameter up to the highest typed one, the later column winning |
| ParamOids.ParamIndexExactly | internal/proxy/postgresql/server.go:489-497 | a value is a placeholder exactly when, spaces aside, it is a dollar sign and digits, and its index is their number |
| ParamOids.ReadsPlaceholder | internal/proxy/postgresql/server.go:489-497 | the placeholder of parameter k, however spaced, is read as k |
| ParamOids.LastTypeIs | internal/proxy/postgresql/server.go:489-503 | a placeholder in several typed columns takes the type of the last |
| Placeholders.Substitute | internal/proxy/postgresql/server.go:1078-1107 | the loop replaces placeholder n, then n - 1, down to 1, each everywhere in the text; what the values put in denote is ParamLiterals |
| Placeholders.DescendingIsSimultaneous | internal/proxy/postgresql/server.go:1080-1106 | on canonical queries whose placeholders cannot swallow digits, with values the replacements leave alone, descending one by one equals one simultaneous replacement |
| Placeholders.SubstitutionIsSimultaneous | internal/proxy/postgresql/server.go:1080-1106 | the same from the query's text; a placeholder may directly follow another that is at least a tenth of it, or whose value begins with no digit |
| Placeholders.SubstitutionExactly | internal/proxy/postgresql/server.go:1080-1106 | for all dollar-free values the query is substituted simultaneously exactly when no placeholder is directly followed by one more than ten times as large |
| Placeholders.TextParameters | internal/proxy/postgresql/server.go:1083-1106 | parameters sent as text are put in place simultaneously in every query exactly when no value contains a placeholder with a smaller number |
| Placeholders.DollarDisturbs | internal/proxy/postgresql/server.go:1083-1106 | the text $1 as the second parameter is such a value |
| Placeholders.AdjacentDigitsCollide | internal/proxy/postgresql/server.go:1080-1106 | in $1$11 with 0 as the eleventh value the tenth value replaces everything |
| Placeholders.SmallerStays | internal/proxy/postgresql/server.go:1080-1106 | replacing a larger placeholder leaves a smaller one alone when no digit follows it, $1 is never part of $10, and in any case when the larger is less than ten times the smaller |
| Placeholders.CountParams | internal/proxy/postgresql/server.go:451-468 | as many zeros as the highest number after a dollar sign |
| ParamLiterals.TextDenotes | internal/proxy/postgresql/server.go:1100-1102 | a parameter sent as text is put in as a literal that, read by the rules of SQL, is the parameter and leaves exactly the text after it, if and only if no quote follows |
| ParamLiterals.NullDenotes | internal/proxy/postgresql/server.go:1084-1085 | NULL is put in as the word NULL |
| ParamLiterals.BinaryDenotes | internal/proxy/postgresql/server.go:1086-1099 | two, four or eight bytes in binary are put in as the decimal text of their big-endian value |
| ParamLiterals.SubstitutedDenotes | internal/proxy/postgresql/server.go:1078-1107 | in the substituted query each text parameter stands at its placeholder as a literal that denotes it, if and only if no quote follows |
| ColumnSplit.SplitColumnList | internal/proxy/postgresql/server.go:524-544 | the pieces between commas at depth zero, a final empty piece left out |
| ColumnSplit.SplitByIndex | internal/proxy/postgresql/server.go:657-676 | the same pieces, the final empty one included |
| ColumnSplit.JoinRestores | internal/proxy/postgresql/server.go:657-676 | joining the pieces with commas restores the text |
| ColumnSplit.CutsExactly | internal/proxy/postgresql/server.go:524-544 | the pieces are cut exactly at the commas of depth zero, also where the depth is negative |
| ColumnSplit.FindTopLevelFrom | internal/proxy/postgresql/server.go:680-696 | the leftmost FROM at depth zero that begins the text or follows a blank and is followed by a blank, or -1 when there is none |
| ColumnSplit.ParseSelectColumns | internal/proxy/postgresql/server.go:637-677 | the names of the pieces between the first SELECT and that FROM; none without them or for a lone asterisk |
| ColumnNames.PlainName | internal/proxy/postgresql/server.go:700-713 | an item that is only a name has that name, spaces aside |
| ColumnNames.QualifiedName | internal/proxy/postgresql/server.go:700-713 | a qualified name is its part after the last dot |
| ColumnNames.RenamedItem | internal/proxy/postgresql/server.go:700-713 | an item with AS in any case has the name after the last AS |
| ColumnNames.SelectListRead | internal/proxy/postgresql/server.go:637-677 | SELECT, a list of items, FROM: the columns are the names of the items in order, none for a lone asterisk; items may hold commas and subqueries inside parentheses |
| BinaryArray.PgBinaryArrayToJson | internal/proxy/postgresql/server.go:1640-1714 | the JSON text of the elements read, for every input, short ones included |
| BinaryArray.WholeArray | internal/proxy/postgresql/server.go:1663-1711 | in the layout the decoder assumes, the output parses as JSON, and to the original list with its nulls, exactly when no element has a control character |
| BinaryArray.TruncatedArray | internal/proxy/postgresql/server.go:1687-1702 | cut anywhere after the bitmap, the output is JSON for the longest prefix of complete elements |
| BinaryArray.Conversion | internal/proxy/postgresql/server.go:1663-1711 | the text printed is that of the complete elements, control characters or not |
| BinaryArray.PrintedArray | internal/proxy/postgresql/server.go:1703-1710 | quoting and escaping is undone by a JSON reader exactly on control-free elements |
| BinaryArray.FittingIsLongest | internal/proxy/postgresql/server.go:1687-1701 | the prefix of complete elements fits the data and one more element does not |
| BinaryArray.SentArrayIsNulls | internal/proxy/postgresql/server.go:1645-1676 | one to eight elements laid out by PostgreSQL's array_send, the first not NULL and shorter than 2^24 bytes, all become null |
| PgRows.SendDataRow | pkg/pgwire/writer.go:95-149 | one cell a value, NULL as length -1, re-encoded when its format is 1 |
| PgRows.SendRowDescription | pkg/pgwire/writer.go:76-90 | the fields in the layout of section 55.7 of the PostgreSQL 16 documentation |
| PgRows.RowDescriptionRoundTrip | pkg/pgwire/writer.go:76-90 | a client reads every field back, signed sizes and the announced format included |
| PgRows.DataRowRoundTrip | pkg/pgwire/writer.go:100-148 | a client reads every cell back, NULL distinct from the empty text |
| PgRows.ParseFormatted | pkg/pgwire/writer.go:119-175 | parsing the decimal text of any integer gives the integer clamped to the width |
| PgRows.BinaryInteger | pkg/pgwire/writer.go:153-175 | printed, re-encoded and decoded as two's complement, an integer comes back clamped to int2, int4 or int8, exactly for every 64-bit value in int8 |
| PgRows.BinaryCasesMatch | internal/proxy/postgresql/server.go:1481-1488 | the types offered in binary are exactly those whose text is re-encoded, provided floats and timestamps are re-encoded at all |
| PgRows.ColumnFormats | internal/proxy/postgresql/server.go:1244-1260 | a column is binary exactly when the first requested code is 1 and its type has a binary case |
| PgRows.AnnouncedFormatDecodes | internal/proxy/postgresql/server.go:1256-1283 | an integer cell decodes, by the format announced, to the integer clamped to that format's range |
| PgRows.OtherCellsDecode | pkg/pgwire/writer.go:95-175 | NULL has no cell, a boolean decodes to its value in both formats, and a text is sent as it is unless its column is binary |
| PgRows.SendRows | internal/proxy/postgresql/server.go:1268-1286 | one DataRow a row, in order, with the formats given |
| PgRows.SendResult | internal/proxy/postgresql/server.go:1222-1286 | the columns unless described, then a DataRow a row, with the announced formats used in every row |
| PgRows.ClientReadsIntegers | internal/proxy/postgresql/server.go:1222-1286 | a client that reads the whole stream and decodes by the announced types and formats gets MySQL's integers |
| PgWire.ParseParse | pkg/pgwire/wire.go:214-231 | reads the layout of Parse with every slice in bounds |
| PgWire.ParseBind | pkg/pgwire/wire.go:234-277 | reads the layout of Bind with every slice in bounds |
| PgWire.ParseOids | pkg/pgwire/wire.go:224-229 | the counted list of parameter OIDs and the bytes after it |
| PgWire.ParseFormats | pkg/pgwire/wire.go:244-250 | a counted list of signed 16-bit format codes and the bytes after it |
| PgWire.ParseParameters | pkg/pgwire/wire.go:252-266 | the loop over parameters: length -1 is NULL, length 0 an empty value |
| PgWire.ParseRoundTrip | pkg/pgwire/wire.go:214-231 | what is read is the record that was laid out, for all NUL-free names, counts below 2^16 and OIDs |
| PgWire.BindRoundTrip | pkg/pgwire/wire.go:234-277 | the same for Bind with values below 2^31 bytes; NULL stays distinct from an empty value |
| PgWire.ExecuteRoundTrip | pkg/pgwire/wire.go:280-287 | the same for Execute |
| PgWire.QueryRoundTrip | pkg/pgwire/wire.go:208-211 | the same for the text of a simple query |
| PgWire.TargetRoundTrip | pkg/pgwire/wire.go:290-303 | the same for Describe and Close |
| PgWire.WireReader.ReadMessage | pkg/pgwire/wire.go:188-205 | one message and exactly the bytes after it, or an error; a length below 4 wraps around as uint32 does |
| PgWire.WireWriter.WriteMessage | pkg/pgwire/writer.go:23-33 | appends the frame: type, length plus four modulo 2^32, body |
| PgWire.ReadAll | internal/proxy/postgresql/server.go:214-219 | the main loop reads the frames of the stream in order until it ends or breaks |
| PgWire.StreamRoundTrip | pkg/pgwire/writer.go:23-33 | a stream of messages is read back as the same sequence |
| PgWire.StartupParameters | internal/proxy/postgresql/server.go:170-178 | pairs of the zero-separated pieces, a later duplicate winning |
| PgWire.StartupRoundTrip | internal/proxy/postgresql/server.go:170-178 | a list of NUL-free parameters is read as its map |
| Varint.ReadVarInt | pkg/chproto/varint.go:13-28 | the value, the bytes left and the error, for every input: end of data, or ten bytes without an end |
| Varint.WriteVarInt | pkg/chproto/varint.go:31-39 | appends the groups of seven bits, least significant first |
| Varint.VarIntRoundTrip | pkg/chproto/varint.go:13-39 | every 64-bit value is read back and exactly the following bytes are left |
| Varint.VarIntMinimal | pkg/chproto/varint.go:31-39 | the number of bytes is the least number of 7-bit groups, at most ten |
| Varint.VarIntPrefixFree | pkg/chproto/varint.go:31-39 | no encoding is a prefix of another |
| Varint.ArbitraryInput | pkg/chproto/varint.go:13-28 | any input that ends within ten bytes yields its base-128 sum modulo 2^64 |
| Varint.BrokenInput | pkg/chproto/varint.go:13-28 | input without a terminator is the end of the data below ten bytes, and an error that leaves the bytes after the tenth otherwise |
| Varint.CutString | pkg/chproto/varint.go:42-56 | no proper prefix of a string's bytes is read as a string |
| Varint.ReadString | pkg/chproto/varint.go:42-56 | the string and the bytes left, or the error, for every input |
| Varint.WriteString | pkg/chproto/varint.go:59-69 | appends the length and the bytes |
| Varint.StringRoundTrip | pkg/chproto/varint.go:42-69 | every string is read back and exactly the following bytes are left |
| Varint.ReadFixed | pkg/chproto/varint.go:92-115 | a little-endian integer and the bytes left, or the error |
| Varint.WriteFixed | pkg/chproto/varint.go:118-139 | appends the little-endian bytes |
| Varint.FixedRoundTrip | pkg/chproto/varint.go:92-139 | every value of the width is read back |
| NativeBlock.SendNativeData | internal/proxy/clickhouse/http_server.go:766-830 | prints the block column by column, null as the empty string |
| NativeBlock.SendNativeResponse | internal/proxy/clickhouse/http_server.go:701-735 | prints the block row by row, null as Go prints it |
| NativeBlock.SendNativeError | internal/proxy/clickhouse/http_server.go:755-764 | prints the exception packets |
| NativeBlock.DataRoundTrip | internal/proxy/clickhouse/http_server.go:766-830 | a client reads back the names, the types and the grid, null as the empty string, and exactly the following bytes are left |
| NativeBlock.ResponseRoundTrip | internal/proxy/clickhouse/http_server.go:701-735 | a client that expects rows reads back names, types and the grid, null as Go prints it |
| NativeBlock.ErrorRoundTrip | internal/proxy/clickhouse/http_server.go:755-764 | a client reads back the message of an exception, and exactly the following bytes are left |
| NativeBlock.SendersAgreeExactlyOnThinShapes | internal/proxy/clickhouse/http_server.go:725-830 | the two cell orders print the same bytes for all tables of a shape exactly when it has at most one row or at most one column |
| NativeBlock.ThinTablesExactly | internal/proxy/clickhouse/http_server.go:701-830 | on those shapes the two senders print the same packets exactly when no cell is null |
| WriteBuffer.Buffer.Append | internal/proxy/clickhouse/buffer.go:43 | writes in place while the capacity lasts, else moves; the pending statements gain one at the end |
| WriteBuffer.Buffer.Enqueue | internal/proxy/clickhouse/buffer.go:39-48 | the reused array refines the specification: pending, batches, outcomes and what MySQL applied; when a batch is taken is WriteBuffer.BatchTaken |
| WriteBuffer.Buffer.Flush | internal/proxy/clickhouse/buffer.go:64-68 | the same for a flush, keeping the array |
| WriteBuffer.Buffer.FlushLocked | internal/proxy/clickhouse/buffer.go:70-109 | copies and truncates, then one of the two paths |
| WriteBuffer.Buffer.Close | internal/proxy/clickhouse/buffer.go:111-114 | stops the timer and flushes |
| WriteBuffer.HistoryKept | internal/proxy/clickhouse/buffer.go:39-109 | after any history the batches and the pending statements are what was enqueued, in order and once each; fewer than max(1, maxSize) are pending, none after a flush |
| WriteBuffer.PendingCount | internal/proxy/clickhouse/buffer.go:39-68 | the pending statements number those enqueued since the last Flush, modulo max(1, maxSize) |
| WriteBuffer.BatchTaken | internal/proxy/clickhouse/buffer.go:39-68 | told from the operations alone: an Enqueue takes a batch, of exactly max(1, maxSize) statements, only when the statements since the last Flush reach a multiple of that number; a Flush takes one exactly when some are pending; otherwise batches, outcomes, MySQL and its clock are left alone |
| WriteBuffer.FullBatches | internal/proxy/clickhouse/buffer.go:39-48 | without a Flush every batch has exactly max(1, maxSize) statements and the remainder is pending |
| WriteBuffer.AppliedIsSubsequence | internal/proxy/clickhouse/buffer.go:70-109 | whatever MySQL answers, what it applied is a subsequence of what was enqueued |
| WriteBuffer.TransactionAllOrNothing | internal/proxy/clickhouse/buffer.go:84-106 | when Begin succeeds the batch lands whole or not at all, whole when the statements and the commit succeed and never when a statement fails |
| WriteBuffer.OneByOneOutcome | internal/proxy/clickhouse/buffer.go:85-93 | when Begin fails exactly the statements that succeed on their own are applied, in order |
| WriteBuffer.StopsAtFailure | internal/proxy/clickhouse/buffer.go:96-107 | the first statement of a transaction that fails is the last one sent; a commit that reports an error may have taken effect |
| WriteBuffer.BeginFails | internal/proxy/clickhouse/buffer.go:84-93 | a batch whose Begin fails is sent statement by statement, all of them, and lands accordingly |
| BufferThreads.EveryMoment | internal/proxy/clickhouse/buffer.go:39-114 | under every interleaving and at every moment: mutual exclusion, batches and pending are the enqueued history, what was applied is a subsequence of it |
| BufferThreads.FreeMutex | internal/proxy/clickhouse/buffer.go:39-114 | whenever the mutex is free the buffer is as after its operations one by one, in the order they took the mutex; none pending right after a flush or the closing flush |
| BufferThreads.FreeMutexFills | internal/proxy/clickhouse/buffer.go:39-114 | under every interleaving, whenever the mutex is free: how many statements are pending, how large the batches are, and whether the last operation took one, told from the operations in lock order |
| BatchInserts.BatchInserts | internal/proxy/clickhouse/buffer.go:117-179 | the statements of the groups in some order of the map, joined by semicolons; by table names, TableNames.ResultByName |
| BatchInserts.PrintedEntry | internal/proxy/clickhouse/buffer.go:130-157 | an INSERT ... VALUES text is read as its table key, its head and its tuples; the key is the written name by TableNames.KeyOfName |
| BatchInserts.ResultIsMerged | internal/proxy/clickhouse/buffer.go:160-178 | the result is the text of the merged statements, whatever the order |
| BatchInserts.ConsistentMerges | internal/proxy/clickhouse/buffer.go:128-178 | when heads with the same key mean the same and heads of one table have the same key, every table ends with the same rows in the same order as one by one; equal keys are equal names by TableNames.KeysAreNames |
| BatchInserts.MergesExactlyConsistent | internal/proxy/clickhouse/buffer.go:128-178 | for given heads, whatever they mean and whatever the tuples, every order of the map keeps every table exactly under that condition on the keys; TableNames.MergesExactlyByName is the same on the written names |
| BatchInserts.EveryTupleOnce | internal/proxy/clickhouse/buffer.go:151-175 | consistent or not, every value tuple appears exactly once |
| TableNames.KeyOfName | internal/proxy/clickhouse/buffer.go:181-198 | the key of INSERT INTO, spaces, a name, spaces and a column list is the name; without a column list the keyword VALUES belongs to it |
| TableNames.PlainKey | internal/proxy/clickhouse/buffer.go:181-198 | INSERT INTO name (columns) has the key name, whatever the columns |
| TableNames.KeysAreNames | internal/proxy/clickhouse/buffer.go:181-198 | two heads share a group exactly when they write the same name, both with or both without columns |
| TableNames.MergesExactlyByName | internal/proxy/clickhouse/buffer.go:128-178 | whatever the tuples, every order of the map keeps every table exactly when heads that name their table alike mean the same and heads of one table name it alike |
| TableNames.ResultByName | internal/proxy/clickhouse/buffer.go:117-179 | the result is one statement a name as written, with the first head of that name and the tuples of all its statements in order; two names always end in two statements |
| TableNames.ReadExactly | internal/proxy/clickhouse/buffer.go:130-141 | a text is skipped unless it begins with INSERT and holds VALUES, in any case |
| DoubleQuotes.RewriteQuotes | internal/proxy/postgresql/translator.go:569-627 | the index-driven loop is: lex, re-tag the quoted names, render |
| DoubleQuotes.CopyLiteral | internal/proxy/postgresql/translator.go:578-598 | copies a literal verbatim, doubled quotes and backslash pairs included |
| DoubleQuotes.TranslateDoubleQuotes | internal/proxy/postgresql/translator.go:569-632 | the same followed by the strip of the schema prefix |
| DoubleQuotes.RelexesExactly | internal/proxy/postgresql/translator.go:569-627 | with no backtick outside literals, MySQL lexes the output to the same tokens, names re-tagged and literals verbatim, exactly when no two quoted names are adjacent |
| DoubleQuotes.LengthBound | internal/proxy/postgresql/translator.go:569-627 | the output is at most one character longer |
| DoubleQuotes.StripsQualifiers | internal/proxy/postgresql/translator.go:628-630 | a clean text loses exactly the names public that qualify another name |
| DoubleQuotes.StripExactly | internal/proxy/postgresql/translator.go:569-632 | with no backtick outside literals, the last strip removes exactly the names public that qualify another exactly when no literal contains the prefix and no quoted name is followed by the characters public and a quoted name beginning with a dot |
| DoubleQuotes.StripEditsLiterals | internal/proxy/postgresql/translator.go:628-630 | the last strip changes a literal that contains the prefix |
| QuotedTexts.LiteralEnds | internal/proxy/postgresql/translator.go:575-599 | a literal made of plain characters, doubled quotes and backslash pairs ends at the next quote exactly when no other quote follows |
| QuotedTexts.LexReads | internal/proxy/postgresql/translator.go:573-625 | literals, quoted names and other characters written one after another are read as those tokens |
| QuotedTexts.StripPublicExactly | internal/proxy/postgresql/translator.go:611-619 | a quoted name loses what stands before its last dot exactly when that is public, bare or in backticks |
| ArrayLiteral.ParsePGArrayElements | internal/proxy/postgresql/array.go:97-148 | the loop over the two flags and the builder is the recursive reading of the text |
| ArrayLiteral.ParsesPrinted | internal/proxy/postgresql/array.go:97-148 | every non-empty list, each element in any printing style it allows, is parsed element by element |
| ArrayLiteral.InvertsDoubling | internal/proxy/postgresql/array.go:97-148 | quoting every element, doubling quotes and escaping backslashes is inverted for arbitrary strings |
| ArrayLiteral.InvertsEscapingExactly | internal/proxy/postgresql/array.go:97-148 | the backslash form of section 8.15.6 of the PostgreSQL 16 documentation is inverted exactly when no quoted element has two adjacent double quotes |
| ArrayLiteral.ToMySQL | internal/proxy/postgresql/array.go:22-48 | braces, brackets and single values, JSON null when no element is found |
| ArrayLiteral.OtherForms | internal/proxy/postgresql/array.go:22-48 | a text in brackets is passed through, anything without braces becomes a list of one, spaces around it dropped |
| ArrayLiteral.ToMySQLAfterToPG | internal/proxy/postgresql/array.go:22-81 | the identity on lists of non-empty elements without comma, quote, backslash or outer space |
| ArrayLiteral.RoundTripExactly | internal/proxy/postgresql/array.go:22-81 | a list comes back exactly when every element is non-empty, trimmed, without backslash, not enclosed in quotes and without a comma outside quotes, and only the last may leave a quote open |
| ArrayLiteral.CommaSplits | internal/proxy/postgresql/array.go:67-80 | an element with a comma comes back as two |
| Upsert.RewriteRefines | internal/proxy/postgresql/translator.go:169-206 | over any table with any unique keys, a list of upserts reaches the same table and fails at the same statements on both sides when each of them is rewritable on the table it meets |
| Upsert.OneKeyRefines | internal/proxy/postgresql/translator.go:169-206 | when the target is the only unique key this holds for every table and every list with harmless assignments |
| Upsert.DoUpdateExactly | internal/proxy/postgresql/translator.go:175-196 | over a table that obeys its keys and has a column outside them, the rewritten DO UPDATE agrees for all harmless assignments exactly when the row collides with the same row, or with none, on the target and on all keys together |
| Upsert.SequentialIsSimultaneous | internal/proxy/postgresql/translator.go:184-195 | left-to-right assignment with VALUES(c) equals simultaneous assignment when every column read after its assignment is assigned itself |
| Upsert.AssignmentsAgreeExactly | internal/proxy/postgresql/translator.go:184-195 | a list that assigns no column twice gives the same row on both sides, for all rows and all meanings of the SQL functions, exactly under that condition |
| Upsert.MySQLKeepsUnique | internal/proxy/postgresql/translator.go:169-206 | the rewritten statements keep every unique key of the table |
| Upsert.DoNothingExactly | internal/proxy/postgresql/translator.go:198-203 | DO NOTHING and INSERT IGNORE leave the same table, and report alike exactly unless the row collides on another key only |
| Upsert.SecondKeyDiffers | internal/proxy/postgresql/translator.go:180-182 | with a second unique key PostgreSQL refuses a row that MySQL turns into an update |
| Upsert.EarlierAssignmentDiffers | internal/proxy/postgresql/translator.go:184-195 | reading a column assigned earlier gives the old value on one side and the new one on the other |
| LimitBy.KeepsMinimum | internal/proxy/postgresql/translator.go:334-342 | under any numbering of the partitions the filter keeps exactly min(N, size) rows of each |
| LimitBy.RowOrderIsLimitBy | internal/proxy/postgresql/translator.go:334-342 | numbered in row order the filter is LIMIT N BY |
| LimitBy.RewriteExactly | internal/proxy/postgresql/translator.go:334-342 | the rewrite returns the rows of LIMIT N BY, as a bag and for every numbering, exactly when N is 0 or every partition with more than N rows has all its rows equal |
| LimitBy.PositionsExactly | internal/proxy/postgresql/translator.go:334-342 | it keeps the same positions for every numbering exactly when N is 0 or no partition has more than N rows |
| LimitBy.StrippingExactly | internal/proxy/clickhouse/translator.go:72-79 | removing LIMIT N BY keeps the result exactly when no partition has more than N rows |
| LimitBy.KeyKeepsAll | internal/proxy/clickhouse/translator.go:72-79 | when BY is a key and N is at least 1 both rewrites and the clause itself keep every row, with _rn equal to 1 |
| LimitBy.DistinctRowsNotEnough | internal/proxy/clickhouse/translator.go:73-76 | distinct rows that agree on the BY columns are cut by the clause |
| LimitBy.FinalKeepsLast | internal/proxy/clickhouse/translator.go:67-70 | FINAL keeps one row of every sorting key and only rows of the table |
| LimitBy.FinalIsLast | internal/proxy/clickhouse/translator.go:67-70 | FINAL keeps exactly the rows after which no row has the same sorting key, in table order |
| LimitBy.FinalExactly | internal/proxy/clickhouse/translator.go:67-70 | dropping FINAL keeps the result exactly when no two rows agree on the sorting key |

## Left out

- Sockets, HTTP handlers, goroutine start-up, the SSL probe, logging, configuration and random identifiers: plumbing around the modelled core.
- The MySQL driver and its pool: an oracle. Nothing ties a transaction to one backend connection (internal/mysql/pool.go), so no isolation is claimed.
- The other regular-expression rewrites of both translators (dates, aggregates, casts, JSON): a translated text is an oracle's answer.
- Upsert.Rewrite: works on statements, not on text. The code inserts IGNORE only after an upper-case INSERT and finds the clauses by regular expression; a lower-case insert loses its ON CONFLICT clause and stays a plain insert.
- Upsert.AssignmentsAgreeExactly: lists that assign a column twice are refused by PostgreSQL and not compared.
- LimitBy.LimitNBy: rows are kept in table order; the two regular expressions that find the clause are not modelled.
- The static catalog tables, DDL lists and type-name look-ups: single-switch facts. Which columns a catalog answer shows is left to the oracle.
- Messages carry no row contents in `Replies` and `Connection`; `PgRows` proves what a row and its formats look like.
- Connection.HandleConn: starts from parsed messages; `PgWire` proves the parsing of the bodies. Result format codes are kept only in `PgRows`.
- Replies.ReturningReply: the number of rows read back does not reach the tag, which the code fixes; the regular expressions that find the columns and the table are one answer of the oracle.
- PgRows.AnnouncedFormatDecodes: covers executeMySQLQuery; executeParameterizedMySQLQuery passes the client's own list of result formats to the row writer, which this property does not cover.
- PgRows.TextToBinary: floats and timestamps are encoded by a given function.
- ParamOids.InferInsertParamTypes: starts from the two split lists; the regular expression that finds them in the query is not modelled, nor are placeholder numbers too large for an int.
- BatchInserts.MergesExactlyConsistent: what a head means to MySQL (its table and what a row takes from it besides) is a parameter; constraints of the tables are not modelled.
- ParamLiterals.TextDenotes: reads literals by the SQL standard, in which a backslash is a character; MySQL also takes backslash escapes, which the code does not add.
- Connection.Session.ExecuteTransaction: the answers of MySQL are an oracle's, and which statement text is handed to it is not recorded.
- TableNames.MergesExactlyByName: names are compared as written; that MySQL takes a quoted and a bare name for the same table is part of what a head means.
- Queries.Normalize: case mapping is that of ASCII letters; Go folds other letters too.
- Varint.ReadString: a length too large to allocate makes Go panic; the model reports the end of the data.
- NativeBlock.SendNativeData: MySQL's type names are mapped to ClickHouse's before, and values are given as text.
- ArrayLiteral.ToMySQL: JSON text stands for the list it encodes, and the delimited mode of ToPG is not modelled.
- DoubleQuotes.StripExactly: asks for no backtick outside literals, as the lexing theorem does.
- WriteBuffer.TransactionAllOrNothing: a transaction that MySQL rolls back for its own reasons is a failed statement or commit of the oracle; the timeout of 30 seconds is not modelled.
- ReadStartupMessage in pkg/pgwire/wire.go: the connection reads its startup message itself, with the same splitting, which `PgWire.StartupParameters` models.
