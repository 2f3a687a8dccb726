# NuoDB ODBC driver: a model of the protocol core

The driver stands between an ODBC application and NuoDB. Most of it converts
values and forwards calls; its own logic is a handful of stateful protocols over
the application's buffers, a cursor and linked lists of handles. This project
models those protocols and proves what they promise over whole runs of calls.

**Form.** What the source changes in place is changed in place here. `Bindings`,
`OdbcStatement`, `OdbcObject`, `OdbcConnection`, `OdbcEnv`, `GetDataTypeFilter` and
`ResultSetMapper` are classes with the source's fields; the parse loops, the copy
loops, the row loop, the list walks and the table initialisers are methods with
loops. Each such method is proved equal to a step of a specification function
(`SqlFetch` to `Fetch.Result`, `SqlPutData` to `PutData`, and so on), and the theorems
are about runs of those steps. A run is a list of calls, latest last (`Odbc.Run`).

**The application's memory** is an array of cells addressed by `nat`, 0 being the
null pointer. A cell holds an octet, or one fragment of a number together with the
number's size and value, so that a partly overwritten number is not mistaken for a
number and no byte order is assumed. Parameter data is read from an `App`, the
application's buffers and length variables at the moment of the call.

**The server** is a sequence of rows with a cursor, a map from parameter numbers to
values with a log of executions, and a yes or no for each request that may fail.

| file | what it models |
|---|---|
| `Odbc.dfy`, `Memory.dfy` | vocabulary, application memory |
| `Bindings.dfy`, `ValueTransfer.dfy` | `Binding`, `Bindings`, one call of `setValue` |
| `PartwiseRead.dfy` | long values read in parts, many columns at once |
| `DataAtExecution.dfy`, `ExecutionProtocol.dfy`, `ExecutionHistory.dfy` | data at execution: the steps, safety and conservation, independence of history |
| `BlockFetch.dfy`, `RowLayout.dfy` | which rows a run of fetches delivers, where they land in memory |
| `NuoRemote.dfy`, `OdbcStatement.dfy` | the statement class, proved against all of the above |
| `OdbcObject.dfy` | diagnostic queue, intrusive lists |
| `Transactions.dfy`, `OdbcConnection.dfy` | pending transactions; handle ownership and end-transaction in connection and environment |
| `ConnectString.dfy` | attribute parser, `trim`, string builder |
| `Escape.dfy` | stored-procedure escape recogniser |
| `ResultSetMapper.dfy` | filtered and mapped catalog view |
| `TableTypes.dfy`, `CompactTables.dfy` | `sqlTables` arguments and type splitter; function bitmap and info slots |

**Where a promised property does not hold of the code**, the code is kept and the
exact condition is proved:

- A later read without room for a unit loses the position - as SQL_NO_DATA if the
  terminator does not fit, as a truncation if only the terminator does
  (`ProgressExactlyWithRoom`) - and the value is delivered again from its start
  (`LostPositionRepeats`); an odd wide buffer loses a byte (`WidePieceWholeExactly`);
  a first call without room for the terminator writes past the buffer (`StaysInBuffer`).
- What an earlier execution left reaches the server exactly when a parameter is not
  bound as an input, as after SQL_RESET_PARAMS (`DirectExecutionLeaks`,
  `ResetParamsLeaks`), or gets its data in pieces that do not determine its value
  (`NoLeakage`): none was accepted, as for a declared length of 0 (`ZeroLengthLeaks`); a
  NULL first piece was followed by data (`NullFirstPieceLeaks`); only refused pieces of a
  type that cannot be sent (`UnsendableLeaks`). An SQL_NTS piece cancels the debt whatever its length
  (`TerminatedPieceEndsDebt`); an unknown length takes one piece, not several
  (`UnknownLengthTakesOnePiece`), although the ODBC Programmer's Reference, section
  "Sending Long Data", has it take any number.
- A catalog result set inherits the count against the row cap
  (`InheritedCountShrinksCap`), a refused next-result request on a prepared statement
  resets it (`RefusedRequestReopens`), and a fetch without rows leaves the rows-fetched counter
  as it was (`NoRowNoCount`).
- A column-wise fetch writes at small addresses for a column without an indicator from
  the second row on (`ColumnWiseStaysInArrays`).
- Auto-commit switched off before connecting never reaches the server
  (`AutoCommitAgrees`), while the driver believes transactions pending
  (`PhantomTransaction`).
- An environment's end-transaction misses a connection that was disconnected and
  connected again, and answers success while it is pending (`OdbcEnv.SqlEndTran`).
- A string built from attributes is parsed back exactly when the fields are clean
  (`RoundTrip`); browsing twice differs from parsing once by one diagnostic exactly
  when the first string is empty or ends in a semicolon (`BrowseIncrementally`).
- The type filter sees the server's code, the application the mapped one; they agree
  exactly outside the four large-object codes (`RawFilterIsDisplayFilter`), and the
  long getter is exact exactly within 32 bits (`LongIsExactWithin32Bits`).
- Slot lookup differs from a search exactly when an unlisted type shares its slot
  with a listed one (`LookupIsSearch`); this includes types in 10000..10199.

## Model

| member | source | states |
|---|---|---|
| Bindings.Alloc | src/Bindings.h:41 | a resize keeps every binding below the new count, positions included, forgets those beyond it, and pads with unbound ones |
| Bindings.Bindings.Reset | src/Bindings.h:44-49 | every binding loses its debt, offset and count and nothing else, so the accumulator survives |
| OdbcStatements.OdbcStatement.MovePiece | src/OdbcStatement.cpp:407-532 | the character, wide and binary arms: bytes moved, bytes unread, new offset, truncation, and the exact memory image, equal to one step of the specification |
| OdbcStatements.OdbcStatement.SetValue | src/OdbcStatement.cpp:374-674 | one `setValue` for a row of a column- or row-wise array: code, binding and whole memory afterwards, with all other memory unchanged |
| ValueTransfer.FixedTransfer | src/OdbcStatement.cpp:533-640 | every transfer of a number, date or time, whatever position was left behind, stores the value itself in its own size; the indicator is that size or SQL_NULL_DATA, nothing is truncated, and the position stays where it was |
| ValueTransfer.RejectedExactly | src/OdbcStatement.cpp:407-645 | a transfer is an error if and only if its type is not moved, or is piece-wise with a negative buffer length |
| ValueTransfer.StoredHolds | src/OdbcStatement.cpp:648-674 | value and indicator, unless they overlap, are found where the transfer put them, and whatever lies apart from both is as it was |
| ValueTransfer.Addresses | src/OdbcStatement.cpp:384-393 | column-wise, fixed-size elements lie their size apart, piece-wise ones the buffer length, and indicators eight bytes; row-wise everything lies a record apart, and a column without an indicator gets none |
| OdbcStatements.OdbcStatement.SqlGetData | src/OdbcStatement.cpp:855-871 | resize, configure, transfer: the code, all read positions and the whole memory are those of `GetData`, the step of the part-wise theorems |
| PartwiseRead.AdequateCall | src/OdbcStatement.cpp:407-674 | from any position inside the value an adequate call stores exactly the bytes from that position to the next, with the terminator behind them, reports the length unread, and returns SQL_NO_DATA only at the end, where it stores nothing |
| PartwiseRead.RunInvariant | src/OdbcStatement.cpp:407-450 | after every unfinished run of adequate reads the position is the number of bytes the application took from its buffer, and these are the value's first bytes |
| PartwiseRead.Reassembly | src/OdbcStatement.cpp:407-674 | for every value and every run of adequate buffers: what the application takes out of its buffer call by call is a prefix of the value, each call stores its part with the terminator behind it, each indicator is the length still unread, SQL_NO_DATA comes exactly when all was collected and puts the binding back at its start, SQL_SUCCESS exactly with the completing piece |
| PartwiseRead.RunsEnd | src/OdbcStatement.cpp:648-660 | no run of adequate reads goes on for more than the value's length plus one calls without SQL_NO_DATA |
| PartwiseRead.ProgressExactlyWithRoom | src/OdbcStatement.cpp:407-674 | inside a value a later call advances if and only if the buffer is longer than the terminator; the application gets SQL_NO_DATA if and only if it is shorter, and SQL_SUCCESS_WITH_INFO for a buffer that holds the terminator alone; in both cases the buffer receives no data and the position is lost |
| PartwiseRead.LostPositionRepeats | src/OdbcStatement.cpp:648-660 | the call after that delivers the value from its first byte again |
| PartwiseRead.StaysInBuffer | src/OdbcStatement.cpp:407-532 | what a call stores fits the buffer if and only if the buffer holds the terminator or the call is not the first |
| PartwiseRead.WidePieceWholeExactly | src/OdbcStatement.cpp:453-495 | for first and later calls at any position: what stands in the buffer is exactly the bytes the position moves over if and only if an even number is moved - an even buffer, an even rest that fits, or on a first call nothing |
| PartwiseRead.NullIsNeverExhausted | src/OdbcStatement.cpp:648-660 | NULL is reported as SQL_NULL_DATA with success however often it is read |
| PartwiseRead.ReadForgetsHigherColumns | src/OdbcStatement.cpp:855-871 | a read of column c keeps the position of every lower column and resets every higher one |
| PartwiseRead.ColumnsAreIndependent | src/OdbcStatement.cpp:855-871 | in every run of reads with non-decreasing columns - numbers, defaults and failed reads among them - each column read as one streamed type stands where it would stand had it been read alone |
| PartwiseRead.ColumnReassembly | src/OdbcStatement.cpp:855-871 | in such a run the next read of such a column stores the next part of that column's value with its terminator, and answers, as in `Reassembly`, so the column is reassembled from the buffer exactly |
| OdbcStatements.OdbcStatement.StoreParameter | src/OdbcStatement.cpp:1124-1230 | the value handed to the server statement, the accumulator and the refusal of other C types, equal to `Store` |
| OdbcStatements.OdbcStatement.SetParameter | src/OdbcStatement.cpp:1105-1122 | a parameter is given its value, noted as owing the declared number of bytes, or refused; no other binding and no other value changes |
| OdbcStatements.OdbcStatement.SetParameters | src/OdbcStatement.cpp:1457-1480 | the parameter loop as a whole: bindings, values and code of the fold over all bound input parameters, stopping at the first refusal |
| OdbcStatements.OdbcStatement.DoExecuteStatement | src/OdbcStatement.cpp:1490-1518 | logs one server execution, starts a transaction only on success, opens the result it brings or leaves cursor and read positions alone |
| OdbcStatements.OdbcStatement.SqlExecute | src/OdbcStatement.cpp:873-883 | the protocol's execute step, in every outcome |
| OdbcStatements.OdbcStatement.SqlPutData | src/OdbcStatement.cpp:1544-1576 | the protocol's put-data step: refusal without debt, the capped piece, the reduced debt, truncation reported |
| OdbcStatements.OdbcStatement.SqlParamData | src/OdbcStatement.cpp:1578-1600 | the cursor moves to the first owing parameter, whose buffer is prompted for, or the statement is executed |
| OdbcStatements.OdbcStatement.SqlBindParameter | src/OdbcStatement.cpp:971-1091 | grows the bindings and configures one; debts, counts and accumulators of all parameters stay |
| OdbcStatements.OdbcStatement.ResetParameters | src/OdbcStatement.cpp:700-725 | forgets all parameter bindings; the put-data cursor and the held values stay |
| ExecutionProtocol.BindDeclares | src/OdbcStatement.cpp:971-1091 | a bind fails exactly without a parameter number, for a type that cannot be bound or a negative length; otherwise the length that execute will read is the length variable, or, fixed at the bind, the text's length cut to the column size, the column size, or the buffer length; no other parameter changes |
| ExecutionProtocol.HandlingExactly | src/OdbcStatement.cpp:1105-1230 | execute skips an output, puts off data declared with -2 or -100 and less and notes what is owed, and otherwise takes the application's data: the text to its terminator or its counted length, the counted bytes, the number, or NULL for a null pointer or length; a type that cannot be sent is refused |
| ExecutionProtocol.SetInputsSpec | src/OdbcStatement.cpp:1451-1488 | after the loop every parameter stands as its own handling says, whatever happened to the others |
| ExecutionProtocol.ExecuteOutcome | src/OdbcStatement.cpp:873-883 | execute is an error exactly when a parameter is refused, or nothing is put off and the server refuses; it needs data exactly when nothing is refused and something is put off; otherwise it executes once, with the values it holds |
| ExecutionProtocol.PieceOutcome | src/OdbcStatement.cpp:1544-1576 | a piece is refused, without any effect, when nothing is owed; otherwise SQL_SUCCESS_WITH_INFO says exactly that a counted piece is longer than what is owed, and SQL_ERROR that its type cannot be sent |
| ExecutionProtocol.ParamDataOutcome | src/OdbcStatement.cpp:1578-1600 | param-data needs more data if and only if something is owed; otherwise it executes with the values held, and its code is success or error as the server answers, with a diagnostic exactly for the error |
| ExecutionProtocol.StepGate | src/OdbcStatement.cpp:1578-1600 | any step keeps everything before the cursor satisfied; a server execution leaves nothing owing; param-data executes exactly when nothing is owed |
| ExecutionProtocol.ExecutionGate | src/OdbcStatement.cpp:1451-1488 | the same in every interleaving of bind, execute, param-data, put-data and reset-params from a new statement |
| ExecutionProtocol.PromptsAscend | src/OdbcStatement.cpp:1578-1600 | between two executes the parameters prompted for never go back |
| ExecutionProtocol.SatisfiedStaysSatisfied | src/OdbcStatement.cpp:1578-1600 | a parameter that owes nothing neither owes again nor is prompted for before the next execute |
| ExecutionProtocol.Conservation | src/OdbcStatement.cpp:1544-1576 | over every run in which a parameter's pieces are counted, whatever the others get: accumulated plus owed bytes equal its declared length, the accumulator is the first of the bytes supplied, and the server statement holds it |
| ExecutionProtocol.CompletedExecution | src/OdbcStatement.cpp:1451-1600 | execute, any run of prompts and pieces, execution: the server gets exactly the declared first bytes supplied for each character or binary parameter, and for the other inputs the application's data as it was at execute |
| ExecutionProtocol.SplittingIsInvisible | src/OdbcStatement.cpp:1544-1576 | two completed executions that supply the same first declared bytes hand over the same value, however the bytes were split and whatever went before |
| ExecutionProtocol.UnknownLengthTakesOnePiece | src/OdbcStatement.cpp:1555-1576 | with an unknown length a second piece is refused; two pieces arrive whole if and only if the second is empty |
| ExecutionProtocol.TerminatedPieceEndsDebt | src/OdbcStatement.cpp:1555-1576 | an SQL_NTS piece pays the whole debt and is held in full; the declared length is kept if and only if the piece is as long as what was owed |
| ExecutionHistory.StepAgrees | src/OdbcStatement.cpp:1544-1600 | prompts and pieces of any kind are answered alike, and take the same course, whatever accumulators, offsets and held values were left behind |
| ExecutionHistory.RunFolds | src/OdbcStatement.cpp:1544-1576 | over every run of pieces of any kind a parameter's value and accumulator are what its accepted pieces make of those it had before |
| ExecutionHistory.FoldDetermined | src/OdbcStatement.cpp:1135-1156 | the resulting value is independent of what was held before if and only if the accepted pieces determine it: there is one, for a type that cannot be sent one is NULL, and for character and binary data it is not a NULL first and a non-NULL last piece |
| ExecutionHistory.NoLeakage | src/OdbcStatement.cpp:1456-1488 | for every finished execution and every parameter the server knows: all other histories of the statement finish alike, and they hand over the same value if and only if the parameter is bound as an input, and its value was taken from the application at execute or the accepted pieces determine it |
| ExecutionHistory.DirectExecutionLeaks | src/OdbcStatement.cpp:1459-1480 | an execution that asks for no data hands over a parameter the server knows with the same value for every history if and only if it is bound as an input |
| ExecutionHistory.DirectlyAtHand | src/OdbcStatement.cpp:1124-1230 | an execution that asks for no data hands over, for every input, the application's own data as it is at that moment |
| ExecutionHistory.ResetParamsLeaks | src/OdbcStatement.cpp:700-725 | from a new statement, bind, execute, SQL_RESET_PARAMS, execute: the second execution succeeds and hands over the first one's value |
| ExecutionHistory.FinishesAlike | src/OdbcStatement.cpp:1563-1566 | from any history a run that finishes from one finishes from the other, with the same pieces accepted |
| ExecutionHistory.ZeroLengthLeaks | src/OdbcStatement.cpp:1105-1122 | a concrete execution with declared length 0 hands over the value an earlier one left |
| ExecutionHistory.NullFirstPieceLeaks | src/OdbcStatement.cpp:1563-1566 | after a NULL first piece the next piece is appended to the old accumulator; the result is the piece itself if and only if that was empty |
| ExecutionHistory.UnsendableLeaks | src/OdbcStatement.cpp:1213-1230 | a piece for a type that cannot be sent is refused but pays the debt, and param-data executes with the old value |
| ExecutionHistory.NullPieceRaisesDebt | src/OdbcStatement.cpp:1555-1576 | a NULL piece given as SQL_NULL_DATA makes a counted parameter owe one byte more |
| OdbcStatements.OdbcStatement.PlaceColumns | src/OdbcStatement.cpp:347-355 | the column loop places one row as `Fetch.PlaceRow` says and stops at a column that cannot be transferred |
| OdbcStatements.OdbcStatement.FetchRows | src/OdbcStatement.cpp:331-372 | the row loop with its early returns equals `Fetch.FetchRows`: memory, cursor, counter and code |
| OdbcStatements.OdbcStatement.SqlFetch | src/OdbcStatement.cpp:305-372 | a whole fetch, with and without a result set and after a cancellation: memory, code, cursor and counters of `Fetch.Result`; bindings keep their configuration, and read positions start afresh if a row came |
| OdbcStatements.OdbcStatement.SqlPrepare | src/OdbcStatement.cpp:174-208 | gives up the old statement with its result, read positions and held values, while bindings and debts stay; a failure to describe the result is an error that leaves the new statement in place |
| OdbcStatements.OdbcStatement.OpenCatalog | src/OdbcStatement.cpp:136-172 | a catalog call leaves no server statement and opens its result with the count against the cap inherited |
| OdbcStatements.OdbcStatement.SetResultSet | src/OdbcStatement.cpp:232-241 | a new result forgets read positions, end of data and cancellation, and keeps the count against the cap |
| OdbcStatements.OdbcStatement.GetResultSet | src/OdbcStatement.cpp:903-926 | opens the generated keys, the first time and if they have columns, or else the next result, with a fresh cursor; without either, end of data and the count are forgotten all the same; a second request never opens the keys |
| OdbcStatements.OdbcStatement.SqlMoreResults | src/OdbcStatement.cpp:928-935 | without a server statement SQL_NO_DATA and no change; with one, success or SQL_NO_DATA with the cursor left as by `GetResultSet` |
| BlockFetch.RunDeliversVisibleRows | src/OdbcStatement.cpp:331-372 | any run of fetches with changing sizes delivers exactly the next rows in order, each once, as many as were asked for and visible |
| BlockFetch.NoDataExactlyAtTheEnd | src/OdbcStatement.cpp:333-336 | the block specification reports no data if and only if all visible rows have been delivered (`RowLayout.NoDataMeansNoRow` ties it to the code of a fetch) |
| BlockFetch.OpenedResultIsDeliveredInFull | src/OdbcStatement.cpp:903-926 | from a freshly opened result: the first min(cap, length) rows, or all without a cap |
| BlockFetch.BlocksRefineSingleRows | src/OdbcStatement.cpp:305-372 | any run of blocks delivers the rows, and leaves the cursor, of as many single-row fetches |
| BlockFetch.EndIsSticky | src/OdbcStatement.cpp:333-336 | once end of data was seen no run of fetches moves the cursor, whatever the length or cap |
| BlockFetch.InheritedCountShrinksCap | src/OdbcStatement.cpp:232-241 | a result opened with an inherited count shows all its cap allows if and only if the count was 0 or what is left of the cap covers the result |
| BlockFetch.RefusedRequestReopens | src/OdbcStatement.cpp:903-935 | after a result was read to its end, a refused next-result request makes rows appear again if and only if the statement is prepared, the server keeps the old result open, and the cap had held rows back |
| RowLayout.FetchIsBlock | src/OdbcStatement.cpp:305-372 | an error-free fetch into memory delivers the number of rows, and leaves the cursor, that the block specification gives |
| RowLayout.RowArrayIsFaithful | src/OdbcStatement.cpp:321-370 | in memory laid out without overlap, after a fetch every delivered row's slots hold its values and indicators, the status array says success exactly for the delivered rows and no data for the others, and the counter is their number |
| RowLayout.NoRowNoCount | src/OdbcStatement.cpp:363-369 | a fetch that delivers nothing leaves in the counter what was there |
| RowLayout.NoDataMeansNoRow | src/OdbcStatement.cpp:333-336 | the code of an error-free fetch is SQL_NO_DATA if and only if it delivered nothing, which is what the block specification says |
| RowLayout.FetchesDeliver | src/OdbcStatement.cpp:305-372 | from a fresh result, over any run of error-free fetches between which sizes, bindings and memory change: the next fetch puts exactly the next rows into its row array, and returns SQL_NO_DATA if and only if none remain |
| RowLayout.ColumnWiseStaysInArrays | src/OdbcStatement.cpp:384-393 | a column-wise fetch writes only inside the application's arrays if and only if every active column's elements hold a terminator and it has an indicator or there is one row |
| RowLayout.ColumnWiseIsSeparated | src/OdbcStatement.cpp:384-393 | column-wise arrays that hold their columns and do not overlap give pairwise disjoint slots for any row count |
| RowLayout.RowWiseIsSeparated | src/OdbcStatement.cpp:384-393 | records of at least the element size with disjoint fields give pairwise disjoint slots for any row count |
| RowLayout.CharacterSlot | src/OdbcStatement.cpp:407-447 | a character slot receives the longest prefix that fits and a terminator, with its length or SQL_NULL_DATA |
| RowLayout.WideSlot | src/OdbcStatement.cpp:453-495 | a wide slot receives the longest prefix of whole units that fits and a two-byte terminator; its indicator is the number of bytes moved, which an odd buffer makes one more |
| RowLayout.BinarySlot | src/OdbcStatement.cpp:498-532 | a binary slot receives the longest prefix that fits and nothing else, with its length or SQL_NULL_DATA |
| RowLayout.FixedSlot | src/OdbcStatement.cpp:533-640 | a number, date or time slot receives the value itself in its own size, with that size or SQL_NULL_DATA, and is never truncated |
| RowLayout.FetchFailsExactly | src/OdbcStatement.cpp:331-370 | a fetch is an error if and only if there is a row to deliver and a bound column whose type is not moved or whose buffer length is negative; it delivers nothing then |
| RowLayout.PostedExactly | src/OdbcStatement.cpp:331-370 | an error-free fetch posts a truncation if and only if a bound column of one of the rows it delivered was cut |
| OdbcObjects.OdbcObject.PostError | src/OdbcObject.cpp:174-183 | appends one record at the end of the list and sets the flag |
| OdbcObjects.OdbcObject.ClearErrors | src/OdbcObject.cpp:185-195 | empties the list and clears the flag |
| OdbcObjects.OdbcObject.SqlError | src/OdbcObject.cpp:156-172 | takes the first record off the list, if there is one, and keeps the flag |
| OdbcObjects.OdbcObject.SqlGetDiagRec | src/OdbcObject.cpp:225-244 | record n is the n-th of the list; every other number, zero and negative ones included, gives no data |
| OdbcObjects.QueueHistory | src/OdbcObject.cpp:72-79 | in every run the list is what was posted since the last clear, in order, less what was popped; a success is downgraded if and only if something was posted since the last clear |
| OdbcObjects.Unlink | src/OdbcConnection.cpp:1117-1125 | takes one handle out of a list and keeps the list well formed, duplicate-free and in order; an absent handle changes nothing |
| OdbcConnections.EachOwnedOnce | src/OdbcStatement.cpp:112-119 | the descriptor list holds four descriptors per statement, each owned by exactly one |
| OdbcConnections.DeletingOwned | src/OdbcStatement.cpp:121-129 | taking out a statement's four descriptors leaves exactly those of the remaining statements |
| OdbcConnections.OdbcConnection.AllocStatement | src/OdbcConnection.cpp:1004-1019 | a new statement and its four new descriptors come first in their lists; both lists stay acyclic, duplicate-free and equal to the live objects |
| OdbcConnections.OdbcConnection.DeleteDescriptor | src/OdbcDesc.cpp:22-26 | the destructor takes exactly its own descriptor out of the list |
| OdbcConnections.OdbcConnection.DeleteStatement | src/OdbcStatement.cpp:121-129 | the destructor takes the statement and its four descriptors out and keeps the ownership invariant |
| OdbcConnections.OdbcConnection.DeleteHandles | src/OdbcConnection.cpp:229-239 | both delete loops terminate because each destructor unlinks its object, and nothing is left alive |
| OdbcConnections.OdbcConnection.Close | src/OdbcConnection.cpp:224-244 | leaves the environment's list for good, ends with both lists empty and no server connection |
| OdbcConnections.OdbcConnection.TransactionStarted | src/OdbcConnection.cpp:1239-1244 | the transaction protocol's execute step |
| OdbcConnections.OdbcConnection.SqlEndTran | src/OdbcConnection.cpp:1092-1115 | the protocol's end step: only a successful answer over an open connection clears the pending mark |
| OdbcConnections.OdbcConnection.SetAutoCommit | src/OdbcConnection.cpp:396-401 | auto-commit changes even if the server refuses; a pending transaction stays pending |
| OdbcConnections.OdbcConnection.SetIsolation | src/OdbcConnection.cpp:403-419 | refused without effect while pending |
| OdbcConnections.OdbcConnection.SqlDisconnect | src/OdbcConnection.cpp:566-588 | refused while pending; otherwise all handles are gone and the environment is left, unless the commit fails, which drops only the server connection |
| Transactions.PendingExactly | src/OdbcConnection.cpp:1092-1115 | in every run a transaction is pending if and only if a statement was executed with auto-commit off and no transaction was ended since |
| Transactions.RefusedExactlyWhilePending | src/OdbcConnection.cpp:566-588 | disconnect and isolation change are refused if and only if that is so; a disconnect that is not refused ends with no connection |
| Transactions.ErrorsExactly | src/OdbcConnection.cpp:387-419 | which connection calls are errors: a second or refused connect; an end of transaction, auto-commit or isolation setting the server refuses over an open connection; a disconnect or isolation setting while pending; a refused commit makes a disconnect information only |
| OdbcConnections.OdbcConnection.Connect | src/OdbcConnection.cpp:1049-1090 | opens at most one server connection and passes on no auto-commit: the server keeps the one it opened with |
| Transactions.AutoCommitAgrees | src/OdbcConnection.cpp:396-401 | over all runs driver and server agree on auto-commit if and only if what was last asked for is what the server was last told or opened with; when nothing is refused, if and only if it was set since the connection was opened, or what was asked for is what the server opened with |
| Transactions.PhantomTransaction | src/OdbcConnection.cpp:1239-1244 | auto-commit switched off before connecting: after the first statement a transaction is believed pending and disconnect refused, while the server commits by itself |
| OdbcConnections.OdbcEnv.AllocConnection | src/OdbcEnv.cpp:30-45 | the new connection is linked first and the list stays well formed |
| OdbcConnections.OdbcEnv.ConnectionClosed | src/OdbcEnv.cpp:63-71 | takes exactly that connection out of the list |
| OdbcConnections.OdbcEnv.SqlEndTran | src/OdbcEnv.cpp:47-61 | reaches exactly the connections of the environment that have not been closed: success if and only if every open one of them succeeded, each makes its own end step and no other connection changes; whatever is still pending on an open connection afterwards belongs to one closed and connected again |
| ConnectString.Trim | src/OdbcConnection.cpp:251-281 | the two trimming loops compute `Trimmed` |
| ConnectString.TrimSpec | src/OdbcConnection.cpp:251-281 | trimming takes away from both ends exactly the characters to be trimmed: what is left begins and ends with none of them, everything taken away is one of them, and nothing changes exactly when there was none |
| ConnectString.TrimIsUnique | src/OdbcConnection.cpp:251-281 | any middle part with that property is the trimmed text |
| ConnectString.ReadAttribute | src/OdbcConnection.cpp:474-490 | the pointer loops over two buffers read the first name and value of the text and always consume input |
| OdbcConnections.OdbcConnection.ParseAttributes | src/OdbcConnection.cpp:471-507 | the whole attribute loop terminates and leaves the connection with the attributes of `Parse` |
| ConnectString.AssignExactly | src/OdbcConnection.cpp:491-507 | what each of the ten names sets, in any casing, with the braces taken off database and driver; an unknown name posts a diagnostic and sets nothing |
| ConnectString.BrowseIncrementally | src/OdbcConnection.cpp:290-326 | for any two strings, parsing one after the other gives the attributes of parsing them joined by a semicolon, with one diagnostic less exactly when the first is empty or ends in a semicolon |
| ConnectString.BuildConnectString | src/OdbcConnection.cpp:511-517 | the five appended attributes fill the buffer with the string of `Build` |
| ConnectString.AppendAttribute | src/OdbcConnection.cpp:980-1002 | appends one attribute, behind a semicolon unless it is the first, and leaves the text before it alone |
| ConnectString.ParsedFieldsAreClean | src/OdbcConnection.cpp:474-507 | no parsed field contains a semicolon or NUL, and drivers have no brace at either end |
| ConnectString.RoundTrip | src/OdbcConnection.cpp:980-1002 | parsing the built string recovers all five fields if and only if they are clean, and then posts nothing |
| ConnectString.BuiltStringFits | src/OdbcConnection.cpp:474-511 | for clean fields the built string fits the buffer of 1024 and the parser's buffers of 256 if and only if the fields have that room, so builder and parser compose |
| Escape.GetToken | src/OdbcStatement.cpp:1429-1449 | skips blanks and copies exactly the next token, terminated, into the buffer |
| Escape.TokensDecide | src/OdbcStatement.cpp:1399-1427 | the rule on at most four tokens holds if and only if the text matches the grammar on characters: call or execute in any casing as a maximal alphanumeric run, or an open brace, an optional question mark and equals sign, and such a run, with spaces, tabs and newlines in front of each |
| Escape.IsStoredProcedureEscape | src/OdbcStatement.cpp:1399-1427 | answers true if and only if the text matches the grammar |
| Escape.WordNames | src/OdbcStatement.cpp:1407-1426 | a token names a procedure call if and only if it spells call or execute, character by character, in any casing |
| Escape.LayoutKeepsTokens | src/OdbcStatement.cpp:78-104 | blanks put anywhere but inside an alphanumeric run leave the tokens alone |
| Escape.LayoutIsIrrelevant | src/OdbcStatement.cpp:1399-1449 | so they never change the answer |
| ResultSetMappers.GetDataTypeFilter.Accept | src/GetDataTypeFilter.cpp:11-18 | accepts a row if and only if the server's DATA_TYPE is the requested code, and caches the right column on first use |
| ResultSetMappers.ResultSetMapper.RegisterGetMapper | src/ResultSetMapper.cpp:37-42 | replaces the mapper of the named column and of no other |
| ResultSetMappers.ResultSetMapper.Next | src/ResultSetMapper.cpp:59-66 | the skipping loop stops at the next row the filter keeps, or at the end |
| ResultSetMappers.NextVisitsTheSelection | src/ResultSetMapper.cpp:59-66 | repeated `next` visits exactly the kept rows, each once and in order, and then answers no for good |
| ResultSetMappers.SelectedRows | src/GetDataTypeFilter.cpp:11-18 | a row is selected as often as it occurs if its DATA_TYPE is the code asked for, and never otherwise |
| ResultSetMappers.NoFilterSelectsAll | src/ResultSetMapper.cpp:59-66 | without a filter every row is shown, in order |
| ResultSetMappers.DisplayedType | src/ResultSetMapper.cpp:94-109 | on a shown row every integer getter of DATA_TYPE, by position or by name, gives the long binary code for a blob, the long character code for a clob and the server's code for everything else; the string getter gives the server's text; the filter saw the server's code |
| ResultSetMappers.OtherColumnsUnchanged | src/ResultSetMapper.cpp:94-109 | every getter of a column without a mapper, by position or by name, gives what the server shows |
| ResultSetMappers.ShortAndIntAreExact | src/OdbcTypeMapper.cpp:13-21 | the short and int getters give the mapped value for every raw one |
| ResultSetMappers.LongIsExactWithin32Bits | src/OdbcTypeMapper.cpp:23-26 | the long getter gives the mapped value if and only if the value fits in 32 bits |
| ResultSetMappers.RawFilterIsDisplayFilter | src/OdbcTypeMapper.cpp:29-42 | filtering by the server's code is filtering by the displayed code if and only if the code is none of the four large-object codes |
| TableTypes.GetString | src/OdbcObject.cpp:202-218 | a null, terminated or counted argument reads as passed, and nothing but its own room in the buffer changes |
| TableTypes.ArgumentIs | src/OdbcObject.cpp:202-218 | what an argument reads as: the default for a null pointer, the text before the first NUL for SQL_NTS, all the counted characters otherwise |
| TableTypes.PartsJoin | src/OdbcStatement.cpp:151-161 | the parts have no commas and joining them restores the list up to a trailing comma |
| TableTypes.JoinParts | src/OdbcStatement.cpp:151-161 | splitting joined comma-free parts restores them |
| TableTypes.SplitTypes | src/OdbcStatement.cpp:151-161 | the loop lays out the first sixteen parts one behind the other, each terminated, and leaves everything before them alone |
| TableTypes.TablesArguments | src/OdbcStatement.cpp:143-161 | in the end every argument reads as passed and the type pointers read the parts of the type list, all of them or the first sixteen, though all copies share one buffer |
| CompactTables.ModuleInit | src/OdbcConnection.cpp:166-197 | the bitmap and the hundred-entry array report a function if and only if it is listed, and every listed item is in its slot |
| CompactTables.SetBit | src/OdbcConnection.cpp:178-181 | setting a function's bit adds that function and no other |
| CompactTables.SqlGetFunctions | src/OdbcConnection.cpp:541-564 | an id is reported if and only if it is listed; the two table ids return the tables |
| CompactTables.LookupIsSearch | src/OdbcConnection.cpp:590-604 | slot lookup equals linear search if and only if the type is listed, shares its slot with none, or with an unlisted one |

## Left out

- `sqlBindCol`, `sqlColAttribute`, `sqlDescribeCol`, `sqlGetInfo` answers, attribute getters and setters: one branch each; fetch bindings are arbitrary instead.
- `sqlExecuteDirect`: it drops the return code of `executeStatement`; `sqlExecute` is the modelled entry point.
- Output parameters of callable statements, query timeouts, row counts: server behaviour. Cancellation is a flag that the next fetch sees; a cancellation in the middle of a fetch is not modelled.
- Conversion of scalars, dates and times, and the decoding of UTF-8 to wide characters: library behaviour; a value comes with its character, wide and binary form.
- A prepared statement, its parameter types and a result set's column types do not change during a run of the data-at-execution protocol or of reads.
- Text and SQLSTATE of the diagnostics of `OdbcStatement` and `OdbcConnection`: only whether something was posted is kept there; the queue itself is modelled in `OdbcObject`.
- Pointers and lengths are unbounded integers: address arithmetic does not wrap, and blob offsets are not cut to 32 bits. The 16- and 32-bit casts of the type mapper and the 16-bit words of the bitmap are modelled.
- The handle lists hold the list part of statements and descriptors (`OdbcObject`); what else the destructors free is not modelled, nor are the application's handles after `close`.
- Calls a Driver Manager would reject: executing without a prepared statement, param-data before any execute, put-data past the last parameter, reading without a row, re-preparing while data is owed.
- NuoDB's numbers for its large-object types: NuoRemote's headers are not part of this model, so the theorems hold for any four distinct numbers (`TypeCodes`).
- Reference counts of `ResultSetMapper`, and getters other than short, int, long and string: they hand values on.
- `expandConnectParameters`, registry and initialisation-file lookups, and copying the built string into the application's buffer.
- Growth of descriptor records, `OdbcObject::appendString` and the text copies of `OdbcError`: buffer conventions without a clean contract.
- Non-ASCII text in the escape recogniser, names and values of 256 characters or more in connection strings, type lists that overflow the scratch buffer, and function ids beyond the bitmap: the source reads or writes outside its arrays there.
- OdbcStatements.OdbcStatement.SetValue: a server exception while a value is fetched is not modelled; the source then posts it and returns an error, or success with information for a truncation, with buffer and position as they were.
- OdbcStatements.OdbcStatement.SqlGetData: the same exceptions are not modelled.
- OdbcStatements.OdbcStatement.SqlFetch: an exception in the server's `next` is not modelled; the source returns an error with the rows placed so far in memory.
- OdbcStatements.OdbcStatement.DoExecuteStatement: output parameters and server failures after `execute` has succeeded are not modelled.
- PartwiseRead.NullIsNeverExhausted: the source dereferences the wide form and the blob of a NULL before asking whether it is one; the model lets them have no bytes.
- PartwiseRead.Reassembly: requires a first buffer that holds the terminator and later ones that hold a unit besides; `StaysInBuffer`, `ProgressExactlyWithRoom` and `WidePieceWholeExactly` say exactly what happens otherwise.
- OdbcConnections.OdbcConnection.Connect: a server failure after `openDatabase`, when the isolation level is passed on, is not modelled.
- ExecutionProtocol.Conservation: is about parameters whose pieces are counted and not NULL; `TerminatedPieceEndsDebt`, `NullFirstPieceLeaks` and `NullPieceRaisesDebt` say what the others do.
