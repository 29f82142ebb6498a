# Data paths of the DuckDB ODBC driver, verified

The driver hands query results, names, messages and parameters to an application piece by piece, and the
engine extensions it carries compute lists and timestamps batch by batch. Each of these paths claims that its
chunked, incremental or narrow computation is the same as a simple one on whole values. This project models
the paths and proves those claims; where one holds only for some inputs, it proves exactly for which.

| files | what they model |
|---|---|
| `HeldCursor`, `FetchSpec`, `FetchRuns`, `LazyScroll`, `UnboundRuns`, `MaterializeRuns`, `OdbcCursor` | the result cursor: held chunks, a lazily pulled source, SQL_FETCH_NEXT / PRIOR / FIRST, materialization |
| `ValueParts`, `VariableValue` | SQLGetData on one variable-length value, part by part |
| `BoundColumns`, `BoundRuns`, `BoundScroll`, `BoundMaterialize` | bound columns, whose text is read like a value in parts: reading forward, scrolling, materialization |
| `LambdaSpec`, `LambdaExecution`, `LambdaLists` | `list_transform` and `list_filter`: many lists flattened into batches and rebuilt |
| `Utf`, `Utf8Repair`, `WideChar`, `DescribeCol`, `DescribeColExact` | UTF-8 and UTF-16, validation, repair and lenient conversion, and column names for wide applications |
| `DiagnosticsSpec`, `Diagnostics`, `DiagnosticsWalk` | diagnostic records read in pieces through an index vector and offset stacks |
| `ParameterSpec`, `ParameterRuns`, `ParameterBatch`, `Parameters` | data-at-execution buffers, parameter arrays, one execution for each set |
| `Timestamps`, `CalendarAdd`, `TimeBucket` | adding intervals in narrow calendar steps, bucketing with truncating division |
| `RangeSpec`, `RangeRuns`, `TableRange`, `ListRange` | ranges of timestamps, batched from a table function and as lists |
| `IntervalFields` | intervals broken into 32-bit fields |
| `Common`, `Multiples` | integer widths, options, arithmetic of multiples and quotients |

Objects whose methods update their fields (the cursor, the filter's carried state, diagnostics, parameters,
the calendar, the range state, the interval structure) are classes. Every method is proved against a function
on the values of those fields, and the properties below are proved of these functions, over whole runs.
`dafny verify dfyconfig.toml` checks the project.

The engine's result is a finite list of chunks and failures; the engine's verdict on an execution, the lambda, the
step of the calendar and the contents of newly allocated memory and of memory behind a value are parameters. The
calendar counts milliseconds at a fixed offset. The UTF-8 library is modelled from its bundled source with
divisions in place of bit operations, and agrees with section 3 of RFC 3629 and sections 2.1 and 2.2 of RFC 2781.
The reference cursor follows the cursor positioning rules of SQLFetchScroll in the Microsoft ODBC Programmer's
Reference.

## Where the code differs from the simple reading

Each of these is a theorem, with the exact condition or a concrete input:

- Held chunks that are not all equal, or a rowset size that does not divide them, show: some run of NEXT, PRIOR
  and FIRST then differs from the flat cursor (`HeldCursor.RefinesExactlyWhenAligned`).
- While a result of several chunks is still being pulled, SQL_FETCH_NEXT from the end of an earlier chunk can find the end
  of the result instead of the chunk that is held, and gives no data (`LazyScroll.LazyScrollShowsFlatExactlyWhen`).
- Reading on after materialization skips rows unless every chunk before the last ends where the driver expects it
  (`HeldCursor.DrainsExactlyWhenSteady`, `MaterializeRuns.MaterializeInvisibleWhenSteady`).
- Materializing a result whose end was seen pulls forever (`OdbcCursor.EndSeenPullsForever`).
- A forward-only result can be read on after materialization exactly when no held chunk had to make room for another
  (`MaterializeRuns.ForwardOnlyKeepsRowsExactlyWhen`).
- With a single column bound as text, rowsets of one row show: SQL_FETCH_FIRST after SQL_FETCH_NEXT finds the value of the
  first row returned already, and gives no data (`BoundScroll.ColumnsShowFlatExactlyWhen`, `BoundScroll.FirstRowIsNoData`).
  A rowset with a single text that is not NULL does so too, whatever its size (`BoundScroll.FirstTwiceResumes`).
- Reading on after materialization with a single text column resumes in the wrong row behind a chunk of one row
  (`BoundMaterialize.ColumnsMaterializeInvisiblyExactlyWhen`), and a value read in part starts over
  (`VariableValue.MaterializedValueStartsOver`).
- SQLGetData on the last column that a fetch read as text goes on behind what the bound buffer took
  (`VariableValue.BoundValueIsContinued`).
- After SQL_UNBIND a rowset of several rows delivers its last row, and none when the chunk ends before that row;
  every row is delivered exactly when rowsets have one row (`UnboundRuns.UnboundReadsEverythingExactlyWhen`).
- A call over the held result that lands at the place of the last read in another chunk resumes in the middle of the new
  value (`VariableValue.CurrentRowResumesExactlyWhen`), and if that is empty, memory behind it is copied
  (`VariableValue.HeldEmptyValueReadsBeyondExactlyWhen`).
- Wide column names arrive whole for every name exactly up to 10922 units of buffer (`DescribeColExact.ExactForAllNamesExactlyWhen`).
- Validation of UTF-16 accepts one lone trail surrogate at the end, and repair can leave a lead surrogate behind
  (`WideChar.FindsEndExactlyWhen`, `WideChar.RepairIsWellFormedExactlyWhen`).
- A diagnostic message more than 32767 characters longer than the buffer is not read to its end
  (`DiagnosticsWalk.WalkIsCompleteExactlyWhen`), and the application's buffer loses one character for every filled piece
  (`DiagnosticsWalk.OneLostPerPiece`).
- Array parameters are read back from their cells exactly when the octet length is not longer than the parameter
  (`ParameterRuns.CellsReadBackExactlyWhen`).
- A text parameter of 2^31 bytes or more is not read whole (`ParameterRuns.DataReadsBack`); a number or date sent at
  execution never arrives (`ParameterRuns.PlainPieceArrivesExactlyWhenNull`), and an array of numbers or dates is
  executed with its   first element in every set (`ParameterBatch.FixedArrayReachesEngineExactlyWhen`).
- A parameter marked with SQL_LEN_DATA_AT_EXEC gets no buffer, and the first bytes sent for it go in front of the
  application's (`ParameterRuns.LengthMarkLosesFirstBytes`).
- Adding an interval and subtracting it again can report an error near the start of the range, with both timestamps in
  range (`Timestamps.SubtractUndoesAddExactlyWhen`, `Timestamps.FirstTimestampIsNotLeft`).
- A day bucket can start behind its timestamp when the origin has microseconds (`TimeBucket.DayBucketIsFloorExactlyWhen`).
- A reversed row silences all later rows of a table range, in later inputs too (`RangeRuns.TableIsAllListsExactlyWhen`,
  `RangeRuns.InputsFollowEachOther`); a zero interval is an error for the table and an empty list for the list function.
- Interval fields wrap at 32 bits: months count 30 days each, so the days themselves can wrap
  (`IntervalFields.DayToSecondConservesExactlyWhen` and its neighbours).

## Model

| member | source | states |
|---|---|---|
| HeldCursor.StepKeepsRelated | src/odbc_driver/common/odbc_fetch.cpp:117-138 | one call keeps the invariant that after a successful fetch the prior row is the row before the current rowset, and shows the rowset that the flat cursor shows |
| HeldCursor.AlignedRefines | src/odbc_driver/common/odbc_fetch.cpp:213-248 | equal chunks that the rowset size divides: no run of NEXT, PRIOR and FIRST shows other rowsets than the flat cursor, before the start and after the end included |
| HeldCursor.RefinesAligned | src/odbc_driver/common/odbc_fetch.cpp:117-138 | the converse: if no run shows other rowsets, all held chunks are equal and the rowset size divides them |
| HeldCursor.RefinesExactlyWhenAligned | src/odbc_driver/common/odbc_fetch.cpp:99-138 | over all runs, the driver's cursor moves over the rowsets of SQLFetchScroll exactly when the chunks are equal and the rowset size divides them |
| HeldCursor.DrainsExactlyWhenSteady | src/odbc_driver/common/odbc_fetch.cpp:221-235 | reading forward over the held result delivers every remaining row once and in order exactly when every chunk before the last ends where the fetch test on the last chunk's size expects it |
| HeldCursor.EqualChunksAreSteady | src/odbc_driver/common/odbc_fetch.cpp:221-235 | equal chunks are steady for any rowset size, from any position |
| FetchSpec.MoveToValid | src/odbc_driver/common/odbc_fetch.cpp:221-248 | every move keeps the current chunk, its index and the rows consistent, and a successful one leaves a chunk to read from |
| FetchSpec.Fetch | src/odbc_driver/common/odbc_fetch.cpp:283-318 | a fetch in any orientation, with fixed-width columns or without bindings, keeps the cursor ready for the next one |
| FetchRuns.NextStreams | src/odbc_driver/common/odbc_fetch.cpp:62-115 | one SQL_FETCH_NEXT on a streaming result delivers the next rows and nothing else, never across a chunk, a non-empty block while rows are left; SQL_NO_DATA exactly when none is, and then nothing changes any more |
| FetchRuns.PeekConsumesNothing | src/odbc_driver/common/odbc_fetch.cpp:320-326 | the peek after execution stands before the first row, consumes none and restores the cursor type |
| FetchRuns.ReadsEverythingOnce | src/odbc_driver/common/odbc_fetch.cpp:283-416 | any number of forward fetches delivers a prefix of the remaining rows, and all of them once the number suffices, for any rowset size |
| FetchRuns.ExecutedResultIsRead | src/odbc_driver/common/odbc_fetch.cpp:283-424 | from clearing the chunks and the peek to the last row: every source row exactly once and in order, on either cursor type |
| FetchRuns.ForwardOnlyRefuses | src/odbc_driver/common/odbc_fetch.cpp:221-226 | a forward-only cursor refuses all orientations but NEXT and stays as it is |
| FetchRuns.FailureIsReported | src/odbc_driver/common/odbc_fetch.cpp:62-97 | a failure of the engine is reported by the call that meets it, the cursor stays, and the next call goes on |
| UnboundRuns.UnboundRowsetSkipsRows | src/odbc_driver/common/odbc_fetch.cpp:289-318 | concrete results on which rowsets of two rows without bindings never deliver the first row, and deliver none of a single row |
| UnboundRuns.UnboundReadsSampled | src/odbc_driver/common/odbc_fetch.cpp:289-299 | reading forward after SQL_UNBIND, with rowsets of any size, shows the last row of every whole rowset of every chunk, in order, and nothing else |
| UnboundRuns.UnboundReadsEverythingExactlyWhen | src/odbc_driver/common/odbc_fetch.cpp:289-299 | every remaining row is delivered once and in order exactly when rowsets have one row, or none is left |
| FetchRuns.HeldFetch | src/odbc_driver/common/odbc_fetch.cpp:283-318 | with fixed-width columns, a call on the fully held result is a step of the position machine and delivers exactly the rows at its positions |
| FetchRuns.ScrollShowsFlatCursor | src/odbc_driver/common/odbc_fetch.cpp:213-248 | with fixed-width columns, after any run on aligned chunks, any call returns the rows of the flat sequence that SQLFetchScroll names, or no data exactly when it does |
| LazyScroll.LazyFetch | src/odbc_driver/common/odbc_fetch.cpp:62-115 | one call on equal chunks, of which some are still to be pulled: it shows the flat rows that the position machine over all chunks names, unless it overlooks a held chunk, and then no data where there are rows |
| LazyScroll.CourseStep | src/odbc_driver/common/odbc_fetch.cpp:221-235 | after any run so far on course, a call shows what the flat cursor shows exactly when it overlooks no chunk, as told by the state before it |
| LazyScroll.LazyScrollShowsFlatExactlyWhen | src/odbc_driver/common/odbc_fetch.cpp:62-138 | scrolling while the result is still being pulled, over aligned chunks: no run of NEXT, PRIOR and FIRST shows a difference from the flat cursor exactly when there is a single chunk |
| MaterializeRuns.MaterializedHolds | src/odbc_driver/common/odbc_fetch.cpp:27-60 | after materialization everything is held, the cursor has not moved, and the rows behind it are those not yet delivered |
| MaterializeRuns.HeldReadsDrain | src/odbc_driver/common/odbc_fetch.cpp:221-235 | reading on over the held result delivers the rows at the drained positions |
| MaterializeRuns.MaterializeInvisibleWhenSteady | src/odbc_driver/common/odbc_fetch.cpp:27-60 | with fixed-width columns, materializing in the middle of a forward run is invisible when the chunks are steady, and only then when rows tell positions apart |
| MaterializeRuns.MaterializeInvisibleForEqualChunks | src/odbc_driver/common/odbc_fetch.cpp:27-60 | materializing equal chunks is invisible with fixed-width columns, whatever the rowset size and the rows are |
| MaterializeRuns.ForwardOnlyKeepsRowsExactlyWhen | src/odbc_driver/common/odbc_fetch.cpp:27-97 | on a forward-only cursor the remaining rows can be read on, from a chunk still held, exactly when at most the first chunk was still to be pulled |
| OdbcCursor.OdbcFetch.constructor | include/odbc_fetch.hpp:47-51 | a new cursor is forward-only, holds nothing and has no read in progress |
| OdbcCursor.OdbcFetch.ClearChunks | src/odbc_driver/common/odbc_fetch.cpp:418-424 | nothing is held, the position is before the first row, and the chunk index is left as it was |
| OdbcCursor.OdbcFetch.ResetLastFetchedVariableVal | src/odbc_driver/common/odbc_fetch.cpp:426-430 | forgets the read in progress |
| OdbcCursor.OdbcFetch.SetCurrentChunk | src/odbc_driver/common/odbc_fetch.cpp:99-115 | a scrollable cursor goes on to the next held chunk, any other to the last one, and stands before its first row |
| OdbcCursor.OdbcFetch.FetchNext | src/odbc_driver/common/odbc_fetch.cpp:62-97 | one pull from the source, its failure or its end; a forward-only cursor holds a single chunk |
| OdbcCursor.OdbcFetch.BeforeStart | src/odbc_driver/common/odbc_fetch.cpp:140-149 | back before the first row of the first held chunk |
| OdbcCursor.OdbcFetch.SetPriorCurrentChunk | src/odbc_driver/common/odbc_fetch.cpp:117-138 | one rowset back, into the chunk before if need be, never before its first row |
| OdbcCursor.OdbcFetch.SetFirstCurrentChunk | src/odbc_driver/common/odbc_fetch.cpp:213-219 | the first chunk, pulled when none is current |
| OdbcCursor.OdbcFetch.FetchNextChunk | src/odbc_driver/common/odbc_fetch.cpp:221-248 | the chunk an orientation leads to; forward-only cursors refuse all but NEXT |
| OdbcCursor.OdbcFetch.ReadRow | src/odbc_driver/common/odbc_fetch.cpp:343-367 | the loop over the columns of a row skips those not bound and reads the others one after the other |
| OdbcCursor.OdbcFetch.ReadBound | src/odbc_driver/common/odbc_fetch.cpp:328-416 | the loop over the rows of a rowset reads every bound column of the slice of the current chunk behind the cursor, keeps the progress of the text read last, and returns the code of the last cell |
| OdbcCursor.OdbcFetch.Fetch | src/odbc_driver/common/odbc_fetch.cpp:283-318 | the fields after the call, its code and its rows, cell by cell, are those of the transition function, with any bindings or none |
| OdbcCursor.OdbcFetch.FetchFirst | src/odbc_driver/common/odbc_fetch.cpp:320-326 | the peek, with the cursor type put back |
| OdbcCursor.OdbcFetch.Materialize | src/odbc_driver/common/odbc_fetch.cpp:27-60 | the loop ends on either cursor type, holds what the type lets it hold and restores the position; failures are reported |
| OdbcCursor.OdbcFetch.SetLastFetchedVariableVal | src/odbc_driver/common/odbc_fetch.cpp:432-438 | progress survives only for the same column and the same row of the chunk |
| OdbcCursor.OdbcFetch.SetLastFetchedLength | src/odbc_driver/common/odbc_fetch.cpp:440-442 | records how much of the value was returned |
| OdbcCursor.EndSeenPullsForever | src/odbc_driver/common/odbc_fetch.cpp:27-115 | with the end seen and a chunk held, every further pull succeeds, so materialization does not return |
| BoundColumns.ColumnsFollowRows | src/odbc_driver/common/odbc_fetch.cpp:328-416 | columns decide what is seen of the rows, the code and the progress kept, and nothing else: position and rows are those of a fetch of fixed-width columns |
| BoundRuns.PlainColumnsFetch | src/odbc_driver/common/odbc_fetch.cpp:328-416 | with fixed-width columns the call is the one on rows and positions alone, and its code that of the last conversion |
| BoundRuns.NextColumnsStream | src/odbc_driver/common/odbc_fetch.cpp:283-416 | one SQL_FETCH_NEXT on a streaming result shows every cell of the next rows as it should be: NULL by its indicator, the outcome of a conversion, or the first bytes of a text with its whole length |
| BoundRuns.ColumnsReadEverythingOnce | src/odbc_driver/common/odbc_fetch.cpp:283-416 | any number of forward fetches shows every cell of every row once, in order and from its start |
| BoundRuns.CellsAreShown | src/odbc_driver/statement/statement_functions.cpp:387-425 | in every orientation and from any state, a cell that is not bound, NULL or of fixed width is the one it should be |
| BoundRuns.NullIsShown | src/odbc_driver/statement/statement_functions.cpp:406-412 | NULL is told by SQL_NULL_DATA in the indicator, and is an error without one, in every orientation and from any state |
| BoundRuns.FreshTextIsShown | src/odbc_driver/statement/statement_functions.cpp:242-320 | a text that no progress is left of shows its first bytes as far as there is room, and its whole length |
| BoundRuns.CodeIsOfLastCell | src/odbc_driver/common/odbc_fetch.cpp:328-416 | the code of a fetch is that of the last bound cell of its last row |
| BoundScroll.HeldColumns | src/odbc_driver/common/odbc_fetch.cpp:283-416 | a call on the held result moves like the position machine, reads the columns of the rows at its positions with the progress from before it, and returns the code of the last cell |
| BoundScroll.ScrollKeepsFresh | src/odbc_driver/statement/statement_functions.cpp:242-320 | one call on aligned chunks keeps the invariant that the text read last ends a rowset, and reads every cell from its start |
| BoundScroll.FirstTwiceResumes | src/odbc_driver/statement/statement_functions.cpp:242-320 | with a single text in the first rowset, and any other rows, chunks and rowset size, the second of two SQL_FETCH_FIRST calls shows a different cell |
| BoundScroll.FirstRowIsNoData | src/odbc_driver/statement/statement_functions.cpp:242-320 | the failing input: one text column, rowsets of one row, SQL_FETCH_NEXT and SQL_FETCH_FIRST give success and no data |
| BoundScroll.ColumnsShowFlatExactlyWhen | src/odbc_driver/common/odbc_fetch.cpp:283-416 | for any bound columns without NULLs and all runs: every call shows the rows of the flat cursor with every value from its start and the code of its last cell, exactly when the chunks are equal, the rowset size divides them, and is not one while a single column is bound as text |
| BoundMaterialize.SteadyColumnsRead | src/odbc_driver/common/odbc_fetch.cpp:221-248 | reading on over steady held chunks reads every value from its start exactly when no chunk of one row whose single text was just read is left behind |
| BoundMaterialize.ColumnsMaterializeInvisiblyExactlyWhen | src/odbc_driver/common/odbc_fetch.cpp:27-60 | materializing in the middle of a forward run is invisible cell by cell exactly when the chunks are steady and, with a single text column, every crossing is fresh |
| BoundMaterialize.EqualChunksCrossFresh | src/odbc_driver/common/odbc_fetch.cpp:99-115 | for equal chunks that is when they have two rows or more, or no chunk is left to go to from an unread row |
| VariableValue.GetVariableValue | src/odbc_driver/statement/statement_functions.cpp:242-320 | one call, with any progress, returns the next piece with its terminator, leaves the rest of the buffer alone, reports the length that was left before it, wrapped like the unsigned size it is, and keeps its progress |
| ValueParts.RoomForData | src/odbc_driver/statement/statement_functions.cpp:262-275 | the room for data is the buffer without a terminator of one or two bytes, all of it for binary data, and more than any value needs for a negative length |
| ValueParts.StaysInsideExactlyWhen | src/odbc_driver/statement/statement_functions.cpp:242-320 | what is copied lies inside the value except when an empty value is met with progress and there is room |
| ValueParts.EmptyValueWithProgress | src/odbc_driver/statement/statement_functions.cpp:242-320 | an empty value met with progress reports the negated progress and more data, and memory behind it is copied |
| VariableValue.PartsReassemble | src/odbc_driver/statement/statement_functions.cpp:242-320 | the pieces of any run of calls are the value byte for byte as far as the buffers reached; information exactly while some stays behind, then success, then no data |
| VariableValue.TerminatorOnlyStalls | src/odbc_driver/statement/statement_functions.cpp:262-280 | buffers with room for the terminator alone never make progress, however many calls are made |
| VariableValue.NewRowStartsAtZero | src/odbc_driver/common/odbc_fetch.cpp:426-442 | a row reached by reading forward, with any bindings, is read from its start in every column but the final one that the fetch itself read as text |
| VariableValue.BoundValueIsContinued | src/odbc_driver/statement/statement_functions.cpp:242-320 | of that column SQLGetData returns what did not fit into the bound buffer, and no data exactly when all of it did |
| VariableValue.MaterializedValueStartsOver | src/odbc_driver/common/odbc_fetch.cpp:62-66 | after materialization the next part of a value starts over, and goes on where the one before ended exactly when nothing had been returned |
| VariableValue.HeldRowStart | src/odbc_driver/common/odbc_fetch.cpp:432-438 | over the held result, progress of a read survives a call that reads no text, in any orientation and with any bindings or none, exactly when the call lands, as computed before it, at the column and place that were read |
| VariableValue.HeldTextStart | src/odbc_driver/common/odbc_fetch.cpp:426-442 | a call that reads text leaves no progress but that of the final column of its last row |
| VariableValue.CurrentRowResumesExactlyWhen | src/odbc_driver/common/odbc_fetch.cpp:432-438 | when the current row was read in part: exactly which NEXT, PRIOR and FIRST calls, with any bindings or none, resume in the middle of another value, by the chunk sizes and the rows before the call |
| VariableValue.HeldEmptyValueReadsBeyondExactlyWhen | src/odbc_driver/statement/statement_functions.cpp:242-320 | an empty value of the row reached copies bytes behind it exactly when the call lands at the place of the last read |
| VariableValue.HeldRowResumesInTheMiddle | src/odbc_driver/common/odbc_fetch.cpp:426-438 | two held chunks of one row: the second row is read from where the reading of the first one stopped, whatever the rows are |
| LambdaSpec.EntryCutsOutRow | src/duckdb/extension/core_functions/lambda_functions.cpp:270-355 | offset and length of a row cut exactly that row's own result out of the child vector |
| LambdaSpec.FilterKeepsExactlyTrue | src/duckdb/extension/core_functions/lambda_functions.cpp:113-143 | a filtered list has exactly the elements whose verdict is true, neither false nor NULL, in order |
| LambdaSpec.TransformGivesVerdicts | src/duckdb/extension/core_functions/lambda_functions.cpp:81-84 | a transformed list has the verdict of every element in its place |
| LambdaSpec.EmitIsResults | src/duckdb/extension/core_functions/lambda_functions.cpp:299-344 | the flat stream of elements emits, list after list, what each list emits on its own |
| LambdaSpec.BatchingIsInvisible | src/duckdb/extension/core_functions/lambda_functions.cpp:103-158 | the carried state and the finished entries depend on the lengths and the verdicts alone, not on how the stream was cut into batches |
| LambdaExecution.SetEmptyLists | src/duckdb/extension/core_functions/lambda_functions.cpp:146-151 | empty lists next in line get empty entries at the current offset, and none is left waiting |
| LambdaExecution.CountVerdict | src/duckdb/extension/core_functions/lambda_functions.cpp:124-143 | one verdict is worked in, and a list whose last element it was gets its entry |
| LambdaExecution.AppendFiltered | src/duckdb/extension/core_functions/lambda_functions.cpp:103-158 | a batch of verdicts keeps the state in step with the stream, the row index in range, and appends exactly the elements with a true verdict |
| LambdaExecution.TransformAppendsVerdicts | src/duckdb/extension/core_functions/lambda_functions.cpp:81-84 | the transform appends every verdict, true, false or NULL |
| LambdaExecution.ExecuteExpression | src/duckdb/extension/core_functions/lambda_functions.cpp:182-216 | every element of a batch is executed with its own 1-based index and the captured columns of its own row |
| LambdaLists.CountIsResults | src/duckdb/extension/core_functions/lambda_functions.cpp:113-158 | the true verdicts up to a row are as many as the elements its predecessors keep |
| LambdaLists.TransformKeepsLengths | src/duckdb/extension/core_functions/lambda_functions.cpp:74-79 | a transformed list is as long as the list |
| LambdaLists.IndexCountsFromOne | src/duckdb/extension/core_functions/lambda_functions.cpp:182-216 | a lambda that returns its index numbers the elements of a list from one |
| LambdaLists.ElementIsIdentity | src/duckdb/extension/core_functions/lambda_functions.cpp:317-343 | a lambda that returns its element gives the slice of the child vector that the row selects |
| LambdaLists.CapturedIsOfOwnRow | src/duckdb/extension/core_functions/lambda_functions.cpp:182-216 | a lambda that returns a captured column gives the value of the list's own row for every element |
| LambdaLists.FilterFinished | src/duckdb/extension/core_functions/lambda_functions.cpp:103-158 | when all verdicts are in, the row index is the row count and every entry is that row's own result |
| LambdaLists.EverythingExecuted | src/duckdb/extension/core_functions/lambda_functions.cpp:346-350 | at the end the child holds the results of all rows and nothing else, with contiguous entries |
| LambdaLists.EnterRow | src/duckdb/extension/core_functions/lambda_functions.cpp:299-310 | a NULL row pushes an empty list and stays NULL; any other row pushes its length or sets its entry |
| LambdaLists.FlushBatch | src/duckdb/extension/core_functions/lambda_functions.cpp:320-328 | executing a batch moves its elements from the buffered to the executed part of the stream |
| LambdaLists.SelectElement | src/duckdb/extension/core_functions/lambda_functions.cpp:330-342 | the selection and index vectors select the batch and one element more |
| LambdaLists.ExecuteList | src/duckdb/extension/core_functions/lambda_functions.cpp:317-343 | the elements of a list are buffered in order, across any number of full batches |
| LambdaLists.ExecuteLambda | src/duckdb/extension/core_functions/lambda_functions.cpp:270-355 | for every batch size and every row set, each list gets exactly its own result, offsets are contiguous and the child holds the sum of the lengths |
| Utf.ValidatesEncoded | third_party/utf8/core.h:249-301 | an encoded code point, whatever follows it, validates to itself and its own length |
| Utf.EncodesValidated | third_party/utf8/core.h:249-301 | what validates is the encoding of its code point |
| Utf.ValidatesCut | third_party/utf8/core.h:249-301 | an encoding cut short is reported as missing bytes, never as malformed |
| Utf.ThreeBytesPerUnit | third_party/utf8/unchecked.h:182-197 | no UTF-16 input, malformed or not, needs more than three bytes for a unit |
| Utf.ConvertsBehind | third_party/utf8/unchecked.h:182-197 | encoded code points convert to their UTF-8 encodings, whatever follows them |
| Utf.EncodedIsWellFormed16 | third_party/utf8/unchecked.h:182-197 | the UTF-16 encoding of code points is well-formed and converts to their UTF-8 encoding |
| Utf.ValidBehind | third_party/utf8/unchecked.h:198-213 | what follows encoded code points decides validity, and they convert to their UTF-16 encodings |
| Utf.RepairIsValid | third_party/utf8/checked.h:97-128 | replacing invalid sequences always yields valid UTF-8 |
| Utf8Repair.StrayByteIsOneMark | third_party/utf8/checked.h:111-114 | a byte that can start no sequence becomes one mark, and the text before and behind it arrives |
| Utf8Repair.BrokenSequenceIsOneMark | third_party/utf8/checked.h:115-124 | a sequence that breaks off before other text becomes one mark with its continuation bytes, and that text arrives |
| Utf8Repair.WrongSequenceIsOneMark | third_party/utf8/checked.h:115-124 | an overlong sequence, or one for no code point, becomes one mark with all the continuation bytes behind it |
| Utf8Repair.CutSequenceIsOneMark | third_party/utf8/checked.h:107-110 | a sequence that the text ends in becomes one mark |
| Utf8Repair.FirstInvalidIsThere | src/odbc_driver/widechar/widechar.cpp:45-69 | the position reported has encoded code points before it and none at it |
| WideChar.Utf16FindInvalid | src/odbc_driver/widechar/widechar_utf16.hpp:6-24 | where the validation scan stops |
| WideChar.FindsEndExactlyWhen | src/odbc_driver/widechar/widechar_utf16.hpp:6-24 | the scan reports the end exactly on well-formed text, or well-formed text and one lone trail surrogate |
| WideChar.Utf16ReplaceInvalid | src/odbc_driver/widechar/widechar_utf16.hpp:26-53 | the loop computes the repaired text, of the same length |
| WideChar.RepairIsIdentityExactlyWhen | src/odbc_driver/widechar/widechar_utf16.hpp:26-53 | repair changes a text exactly when it is malformed |
| WideChar.OrdinaryUnitsStay | src/odbc_driver/widechar/widechar_utf16.hpp:26-53 | repair puts marks in the place of surrogates only; every other unit stays where it is |
| WideChar.LoneSurrogateIsMarked | src/odbc_driver/widechar/widechar_utf16.hpp:26-53 | behind well-formed text a lone surrogate becomes the mark; a lead takes the unit behind it along, unchanged |
| WideChar.StopsForLoneSurrogate | src/odbc_driver/widechar/widechar_utf16.hpp:6-24 | a scan that stops early has well-formed text in front of the surrogate it stops for, and stands behind that unless it is the last unit |
| WideChar.RepairIsWellFormedExactlyWhen | src/odbc_driver/widechar/widechar_utf16.hpp:26-53 | the repaired text is well-formed exactly when the scan never takes a lead surrogate as the second unit of a failed pair |
| WideChar.TakenLeadSwallowsText | src/odbc_driver/widechar/widechar_utf16.hpp:26-53 | a concrete text whose repair stays malformed |
| WideChar.Utf16ToUtf8Lenient | src/odbc_driver/widechar/widechar.cpp:19-43 | the converted text, repaired first when the scan did not reach the end, and where it stopped |
| WideChar.Utf8ToUtf16Lenient | src/odbc_driver/widechar/widechar.cpp:45-69 | the converted text, repaired first when invalid, and where it is |
| WideChar.LenientFitsThreeBytesPerUnit | src/odbc_driver/widechar/widechar.cpp:19-43 | three bytes for a unit suffice for any input, repaired or not |
| WideChar.Utf16RoundTrip | src/odbc_driver/widechar/widechar.cpp:19-69 | UTF-16 to UTF-8 and back is the identity on every well-formed text |
| WideChar.Utf8RoundTrip | src/odbc_driver/widechar/widechar.cpp:19-69 | UTF-8 to UTF-16 and back is the identity on every valid text, within three bytes for a unit |
| WideChar.RepairedTextConverts | src/odbc_driver/widechar/widechar.cpp:19-43 | malformed text whose scan takes no lead surrogate converts to valid UTF-8 of the repaired text |
| WideChar.AcceptedTextConvertsExactlyWhen | src/odbc_driver/widechar/widechar.cpp:19-43 | accepted text converts to valid UTF-8 exactly when it is well-formed |
| DescribeCol.AllocLength | src/odbc_driver/widechar/widechar.cpp:84-90 | three bytes for a unit, clamped to a small integer; a negative length becomes a huge size first |
| DescribeCol.WriteString | include/odbc_utils.hpp:28-37 | a bounded write cuts, terminates, counts the full text in 16 bits and leaves the rest of the buffer alone; without a buffer nothing is counted |
| DescribeCol.Utf16WriteStr | src/odbc_driver/widechar/widechar.cpp:92-132 | after a success the application receives the first units of the converted text that leave room for the terminator, and their number; after a failure nothing |
| DescribeCol.DescribeColInternal | src/odbc_api/column_info_api.cpp:21-36 | the buffer holds the cut name of the column; a column that does not exist is an error and writes nothing |
| DescribeCol.DescribeColW | src/odbc_api/column_info_api.cpp:80-90 | the name goes through the intermediate UTF-8 buffer; a length of zero or less writes nothing, and neither does a missing column |
| DescribeColExact.Cut | src/odbc_driver/widechar/widechar.cpp:84-90 | cutting UTF-8 anywhere leaves whole code points and perhaps the first bytes of one more |
| DescribeColExact.LenientCut | src/odbc_driver/widechar/widechar.cpp:45-69 | whole code points convert to themselves and a cut one to a single mark |
| DescribeColExact.ExactWhenBufferFits | src/odbc_api/column_info_api.cpp:80-90 | with three bytes for every unit, the output is exactly the first units of the full name, even when the buffer cuts a code point |
| DescribeColExact.LongNameIsMarked | src/odbc_driver/widechar/widechar.cpp:84-90 | for every larger buffer there is a name that arrives with a mark in place of its last character |
| DescribeColExact.ExactForAllNamesExactlyWhen | src/odbc_api/column_info_api.cpp:80-90 | names of every length and content arrive exactly, exactly when three bytes for a unit stay within a small integer |
| DiagnosticsSpec.Call | src/odbc_api/diagnostic_api.cpp:223-328 | every call, with any arguments, keeps the index sorted and leading to every record, and every record readable |
| DiagnosticsSpec.LookupKeepsValid | src/odbc_driver/common/odbc_diagnostic.cpp:250-263 | the first record number leads to the first record also after the index was rebuilt |
| DiagnosticsSpec.RepeatedKeepsCovers | src/odbc_driver/common/odbc_diagnostic.cpp:222-226 | inserting a repeated index keeps the index sorted and complete |
| Diagnostics.DiagRecord.constructor | src/odbc_driver/common/odbc_diagnostic.cpp:287-304 | a new record is read from its start |
| Diagnostics.DiagRecord.ClearStackMsgOffset | src/odbc_driver/common/odbc_diagnostic.cpp:345-349 | pops until an offset of zero is on top |
| Diagnostics.DiagRecord.GetMessage | src/odbc_driver/common/odbc_diagnostic.cpp:328-337 | the text from the last offset on; the next offset is pushed, or the stack cleared when the text ends |
| Diagnostics.DiagRecord.SetMessage | src/odbc_driver/common/odbc_diagnostic.cpp:339-343 | a new text is read from its start |
| Diagnostics.OdbcDiagnostic.Clean | src/odbc_driver/common/odbc_diagnostic.cpp:232-236 | no records and no index are left |
| Diagnostics.OdbcDiagnostic.AddDiagRecord | src/odbc_driver/common/odbc_diagnostic.cpp:216-220 | a copy is added behind all the records, also in the middle of a walk |
| Diagnostics.OdbcDiagnostic.AddNewRecIdx | src/odbc_driver/common/odbc_diagnostic.cpp:222-226 | the index leads to the same record once more |
| Diagnostics.OdbcDiagnostic.GetDiagRecord | src/odbc_driver/common/odbc_diagnostic.cpp:250-263 | the record of an index; looking the first one up rebuilds the index and starts every message over |
| Diagnostics.GetDiagRecInternal | src/odbc_api/diagnostic_api.cpp:223-328 | state and answer after one call, in all its branches, with the 16-bit lengths of the narrow form |
| DiagnosticsWalk.PushesExactlyWhenRepeats | src/odbc_api/diagnostic_api.cpp:303-325 | an offset is pushed exactly when the record is repeated, unless what remains wraps in 16 bits; both structures stay in step exactly then |
| DiagnosticsWalk.PieceStarts | src/odbc_driver/common/odbc_diagnostic.cpp:328-337 | piece j of a message is its text from j buffer lengths on |
| DiagnosticsWalk.PiecesCoverExactlyWhen | src/odbc_api/diagnostic_api.cpp:303-325 | a message takes as many calls as its length needs exactly when it is at most 32767 longer than the buffer |
| DiagnosticsWalk.StepAt | src/odbc_api/diagnostic_api.cpp:286-325 | one call of the walk shows the next piece with its length, announces more exactly when the record is repeated, and leads on to the same record or the next |
| DiagnosticsWalk.ReadOutRewindsExactlyWhen | src/odbc_driver/common/odbc_diagnostic.cpp:328-349 | after the last read the offset is back at zero exactly for messages that are not too long |
| DiagnosticsWalk.WalkReadsRecordsInOrder | src/odbc_api/diagnostic_api.cpp:223-328 | from any valid state, record numbers 1, 2, 3 and so on give the pieces of every message in order with their lengths in 16 bits, success for the last piece of each and more announced before, and then no data; the index ends with one entry for each piece |
| DiagnosticsWalk.WalkIsCompleteExactlyWhen | src/odbc_api/diagnostic_api.cpp:303-325 | the walk takes the sum of the rounded-up quotients of length and buffer exactly when no message is too long |
| DiagnosticsWalk.EmptyBufferNeverAdvances | src/odbc_api/diagnostic_api.cpp:303-325 | with a buffer of no length every record number shows the first record and announces more |
| DiagnosticsWalk.OneLostPerPiece | src/odbc_api/diagnostic_api.cpp:195-198 | the pieces as written to the application's buffer lack one character for each buffer length of the message |
| DiagnosticsWalk.JoinedIsMessageExactlyWhen | src/odbc_api/diagnostic_api.cpp:195-198 | for messages and buffers of any length, what was written gives the message back exactly when it fits whole |
| DiagnosticsWalk.LengthOnlyKeepsPlaceExactlyWhen | src/odbc_api/diagnostic_api.cpp:286-310 | asking for the length without the text moves on in the message unless the announced buffer is empty, or holds a message that nothing was read of |
| DiagnosticsWalk.LengthOnlyTellsUnread | src/odbc_api/diagnostic_api.cpp:295-304 | asking for the length alone is answered by that of the unread text, up to 32767 |
| DiagnosticsWalk.AnnouncedExactlyWhenCut | src/odbc_api/diagnostic_api.cpp:306-327 | of a message that is not too long, more is announced exactly behind the pieces longer than the buffer |
| DiagnosticsWalk.WithoutLengthNothingRepeats | src/odbc_api/diagnostic_api.cpp:306-327 | without a pointer for the length no record is repeated |
| DiagnosticsWalk.UselessArguments | src/odbc_api/diagnostic_api.cpp:272-282 | record numbers and lengths below their ranges are answered by a message, record numbers behind the last by no data, and nothing changes |
| ParameterSpec.MeasuringKeepsValues | src/odbc_driver/parameter_descriptor.cpp:262-276 | writing a measured length over the mark changes no value of any set |
| ParameterRuns.TextIsWholeExactlyWhen | src/odbc_driver/parameter_descriptor.cpp:274-276 | a text is read whole exactly when its length survives the 32-bit parameter |
| ParameterRuns.PiecesAreJoined | src/odbc_driver/parameter_descriptor.cpp:172-200 | the pieces of a value follow each other, are cut to the parameter's length, and the next parameter is the current one exactly when the buffer is full |
| ParameterRuns.DataReadsBack | src/odbc_driver/parameter_descriptor.cpp:172-276 | the value read later is all the pieces joined and cut to the length, exactly when it is binary or its length survives 32 bits |
| ParameterRuns.LengthMarkLosesFirstBytes | src/odbc_driver/parameter_descriptor.cpp:172-200 | a piece for a parameter marked with SQL_LEN_DATA_AT_EXEC loses as many bytes as the mark is below zero, and only the rest arrives |
| ParameterRuns.PlainPieceArrivesExactlyWhenNull | src/odbc_driver/parameter_descriptor.cpp:147-156 | a parameter of another type than character and binary has its value after the piece exactly when that is NULL; otherwise it asks for data for ever |
| ParameterRuns.RestartedTakesNothing | src/odbc_driver/parameter_descriptor.cpp:42-49 | after the statement is closed no parameter takes a piece until it is bound again |
| ParameterRuns.PutCellHolds | src/odbc_driver/parameter_descriptor.cpp:202-235 | the piece of a set lands in its cell and leaves the other cells as they are |
| ParameterRuns.PiecesFillCells | src/odbc_driver/parameter_descriptor.cpp:202-235 | after all sets every cell holds its own piece, and the next parameter is the current one |
| ParameterRuns.CellReadsBack | src/odbc_driver/parameter_descriptor.cpp:262-276 | a cell is read back when the octet length is not longer than the parameter |
| ParameterRuns.CellsReadBackExactlyWhen | src/odbc_driver/parameter_descriptor.cpp:202-276 | all pieces, whatever they are, are read back for their own sets exactly when the octet length is not longer than the parameter |
| ParameterBatch.StaysReady | src/odbc_driver/parameter_descriptor.cpp:65-91 | consuming one set leaves the values of all later sets as they were |
| ParameterBatch.BatchExecutesSetsInOrder | src/odbc_driver/statement/statement_functions.cpp:92-156 | the engine is given set after set with the set's own values, the counters say how many were consumed, and the run succeeds exactly when every set has its values and the engine takes them all |
| ParameterBatch.BatchExecutesEverySet | src/odbc_driver/statement/statement_functions.cpp:92-156 | without errors there is exactly one execution for each set |
| ParameterBatch.DataReachesEngine | src/odbc_driver/parameter_descriptor.cpp:65-276 | pieces sent for one parameter of any statement reach the engine, each in the execution of its own set, beside the values of the other parameters |
| ParameterBatch.GivenSetsReachEngine | src/odbc_driver/statement/statement_functions.cpp:92-156 | when every parameter has its value in every set, the engine is given exactly these sets in order |
| ParameterBatch.SuppliedValuesReachEngine | src/odbc_driver/parameter_descriptor.cpp:237-290 | NULLs, counted and terminated texts at the place of their set, binary data and numbers supplied by the application reach the engine as they are, set after set |
| ParameterBatch.LackingValueEndsBatch | src/odbc_driver/parameter_descriptor.cpp:65-91 | the first parameter without a value ends the execution, as an error or asking for data, before the engine is called |
| ParameterBatch.FixedArrayReachesEngineExactlyWhen | src/odbc_driver/parameter_descriptor.cpp:237-360 | every set is executed with its own element of an array of numbers or dates exactly when all its elements are equal |
| Parameters.ParameterDescriptor.Reset | src/odbc_driver/parameter_descriptor.cpp:42-49 | the sets start over and the descriptor takes no more pieces until it is bound again |
| Parameters.ParameterDescriptor.PutData | src/odbc_driver/parameter_descriptor.cpp:137-170 | a piece goes to the joined buffer of a single set or to the cell of the current one; any other parameter becomes NULL or points to the data |
| Parameters.ParameterDescriptor.FillParamCharDataBuffer | src/odbc_driver/parameter_descriptor.cpp:172-200 | the fields after a piece; a negative length fills the buffer |
| Parameters.ParameterDescriptor.FillCurParamCharSet | src/odbc_driver/parameter_descriptor.cpp:202-235 | the fields after the piece of one set |
| Parameters.ParameterDescriptor.SetValue | src/odbc_driver/parameter_descriptor.cpp:237-385 | the value of a parameter in the current set by its type, NULL, missing or failed, and its place among the kept values |
| Parameters.ParameterDescriptor.GetParamValues | src/odbc_driver/parameter_descriptor.cpp:65-91 | the values of the current set, or why there are none; a set is consumed only when it has all of them |
| Parameters.ParameterDescriptor.SetParamIndex | src/odbc_driver/parameter_descriptor.cpp:405-414 | one more set is consumed, and the application's counter says so |
| Parameters.OdbcStmt.SingleExecuteStmt | src/odbc_driver/statement/statement_functions.cpp:128-156 | one execution with the values of the current set, unless they are missing |
| Parameters.OdbcStmt.BatchExecuteStmt | src/odbc_driver/statement/statement_functions.cpp:92-102 | the loop ends and executes what the batch function says |
| Timestamps.InRangeExactlyWhen | src/duckdb/src/common/types/timestamp.cpp:406-415 | the range check holds from the first whole day that fits to the last finite timestamp |
| Timestamps.SumExistsExactlyWhen | src/duckdb/extension/icu/icu-dateadd.cpp:67-133 | a sum exists exactly when the starting millisecond, the sum, and the whole milliseconds of the sum are in range |
| Timestamps.ComfortableReaches | src/duckdb/extension/icu/icu-dateadd.cpp:68-133 | no check fails when timestamp and sum keep two milliseconds away from the ends of the range |
| Timestamps.SubtractUndoesAdd | src/duckdb/extension/icu/icu-dateadd.cpp:140-144 | two milliseconds inside the range, subtracting the interval again gives the timestamp back |
| Timestamps.SubtractUndoesAddExactlyWhen | src/duckdb/extension/icu/icu-dateadd.cpp:67-144 | subtracting the interval from the sum gives the timestamp back exactly when the timestamp and the millisecond the subtraction starts from are in range |
| Timestamps.FirstTimestampIsNotLeft | src/duckdb/extension/icu/icu-dateadd.cpp:67-144 | a concrete timestamp and interval whose sum is in range and from which subtracting fails |
| CalendarAdd.CalendarAddHour | src/duckdb/extension/icu/icu-dateadd.cpp:47-65 | the loop ends and its 32-bit steps add up to the hours |
| CalendarAdd.GetTime | src/duckdb/extension/icu/icu-datefunc.cpp:102-132 | the calendar read back in microseconds, in range or not at all |
| CalendarAdd.SetTime | src/duckdb/extension/icu/icu-datefunc.cpp:134-149 | the millisecond a timestamp falls into, also before 1970, and the microseconds behind it |
| CalendarAdd.Add | src/duckdb/extension/icu/icu-dateadd.cpp:67-133 | adding an interval without months is exact addition of microseconds, for negative timestamps and intervals too, or an error |
| CalendarAdd.Sub | src/duckdb/extension/icu/icu-dateadd.cpp:140-144 | subtracting is adding the negated interval |
| TimeBucket.CorrectedIsFloor | src/duckdb/extension/icu/icu-timebucket.cpp:70-75 | truncating division and the correction by one width round down |
| TimeBucket.WidthConvertibleToMicrosCommon | src/duckdb/extension/icu/icu-timebucket.cpp:63-77 | the bucket by microseconds, or an error |
| TimeBucket.MicrosBucketIsFloor | src/duckdb/extension/icu/icu-timebucket.cpp:63-77 | the bucket is not behind the timestamp, less than a width before it, and whole widths from the origin, on either side |
| TimeBucket.MicrosBucketExistsExactlyWhen | src/duckdb/extension/icu/icu-timebucket.cpp:63-77 | the bucket exists exactly when its distance fits 64 bits and adding that to the origin works |
| TimeBucket.MicrosBucketExists | src/duckdb/extension/icu/icu-timebucket.cpp:63-77 | so it does on either side of the origin, two milliseconds inside the range |
| TimeBucket.MicrosBucketIsIdempotent | src/duckdb/extension/icu/icu-timebucket.cpp:63-77 | the bucket of a bucket is the bucket |
| TimeBucket.MicrosBucketIsMonotone | src/duckdb/extension/icu/icu-timebucket.cpp:63-77 | buckets are ordered as their timestamps are |
| TimeBucket.WidthConvertibleToDaysCommon | src/duckdb/extension/icu/icu-timebucket.cpp:79-99 | the bucket by days, or an error |
| TimeBucket.DayBucketIsFloorExactlyWhen | src/duckdb/extension/icu/icu-timebucket.cpp:79-99 | a day bucket is the true floor exactly when the timestamp is not before 1970 and the origin, whole widths and less than the origin's microseconds away from it |
| TimeBucket.DayBucketExists | src/duckdb/extension/icu/icu-timebucket.cpp:79-99 | a day bucket exists on either side of the origin, two milliseconds inside the range |
| TimeBucket.DaysAgreeWithMicrosExactlyWhen | src/duckdb/extension/icu/icu-timebucket.cpp:63-99 | buckets of whole days and of as many microseconds agree exactly when the day bucket is a floor |
| TimeBucket.WholeOriginNeverMisses | src/duckdb/extension/icu/icu-timebucket.cpp:79-99 | with an origin of whole milliseconds every day bucket is a floor, and buckets are ordered |
| TimeBucket.DayBucketIsIdempotent | src/duckdb/extension/icu/icu-timebucket.cpp:79-99 | the day bucket of any bucket is that bucket, whatever the origin; nothing runs out of range |
| TimeBucket.OriginWithMicrosMisses | src/duckdb/extension/icu/icu-datefunc.cpp:160-169 | a concrete timestamp whose bucket starts behind it |
| RangeSpec.FixedOffsetIsMonotone | src/duckdb/extension/icu/icu-dateadd.cpp:68-133 | a calendar with a fixed offset moves finite timestamps strictly in the direction of the interval |
| RangeRuns.RowIsList | src/duckdb/extension/icu/icu-list-range.cpp:79-123 | a row that the table accepts has the same values in a list, unless the list would be too long |
| RangeRuns.AcceptsExactlyWhen | src/duckdb/extension/icu/icu-table-range.cpp:130-132 | of the rows with a list, the table refuses exactly those with a zero interval, whose lists are empty |
| RangeRuns.ListIsWholeRange | src/duckdb/extension/icu/icu-list-range.cpp:79-123 | a list starts where the row does, follows its steps, has every value before the end, the end itself exactly when it belongs to the range, and none behind it |
| RangeRuns.ListNeedsBounds | src/duckdb/extension/icu/icu-list-range.cpp:79-123 | bounds that are not finite and intervals that point both ways make the list fail |
| RangeRuns.TableEmitsWholeRanges | src/duckdb/extension/icu/icu-table-range.cpp:183-230 | without reversed rows the table emits the whole range of every row, end included or not, row after row |
| RangeRuns.TableIsListsBeforeReversed | src/duckdb/extension/icu/icu-table-range.cpp:183-230 | the table emits the lists of the rows before the first reversed row, joined, and nothing else |
| RangeRuns.TableIsAllListsExactlyWhen | src/duckdb/extension/icu/icu-table-range.cpp:183-230 | the table emits all the lists exactly when no row behind the first reversed one has values |
| RangeRuns.TableIsAllLists | src/duckdb/extension/icu/icu-table-range.cpp:183-230 | without reversed rows the two functions agree |
| RangeRuns.InputsFollowEachOther | src/duckdb/extension/icu/icu-table-range.cpp:191-206 | rows that come in two inputs emit what they emit in one, silence included |
| TableRange.ICURangeLocalState.GenerateRangeDateTimeParameters | src/duckdb/extension/icu/icu-table-range.cpp:111-153 | takes a row's parameters over or fails, and never forgets a reversed row |
| TableRange.FillBatch | src/duckdb/extension/icu/icu-table-range.cpp:208-220 | a batch and what the row still emits are what it emitted before, and every value brings its end nearer |
| TableRange.ICUTableRangeFunction | src/duckdb/extension/icu/icu-table-range.cpp:183-230 | output and remaining values together are the remaining values before the call; batches are not larger than the vector, and every call makes progress |
| TableRange.Drain | src/duckdb/extension/icu/icu-table-range.cpp:183-230 | repeated calls end, and their batches joined are all that the rows emit |
| ListRange.ListLength | src/duckdb/extension/icu/icu-list-range.cpp:79-123 | the number of values for any step of the calendar, or an error; the loop ends because of the cap |
| ListRange.ListFollowsSteps | src/duckdb/extension/icu/icu-list-range.cpp:160-169 | the values follow each other by steps that succeeded in the first pass |
| ListRange.CountLists | src/duckdb/extension/icu/icu-list-range.cpp:145-157 | every row has its entry, one behind the other, of the length of its list |
| ListRange.WriteList | src/duckdb/extension/icu/icu-list-range.cpp:162-173 | the second pass writes exactly the values that the first one counted, at their place |
| ListRange.ICUListRangeFunction | src/duckdb/extension/icu/icu-list-range.cpp:126-181 | fails exactly when some row does; otherwise fills exactly the counted slots with every row's own list |
| IntervalFields.WrapsOnce | src/odbc_driver/common/odbc_interval.cpp:69-93 | wrapping products and sums on the way is wrapping the final value once |
| IntervalFields.DayToSecondConservesExactlyWhen | src/odbc_driver/common/odbc_interval.cpp:108-142 | days to seconds stand for the whole interval exactly when the days fit in 32 bits, with lower fields below 60, 60 and a million |
| IntervalFields.HourToSecondConservesExactlyWhen | src/odbc_driver/common/odbc_interval.cpp:144-168 | hours to seconds do so exactly when all the hours fit |
| IntervalFields.MinuteToSecondConservesExactlyWhen | src/odbc_driver/common/odbc_interval.cpp:170-181 | minutes to seconds do so exactly when all the minutes fit |
| IntervalFields.SignIsRightExactlyWhen | src/odbc_driver/common/odbc_interval.cpp:36-50 | sign and fields give the value back exactly when no part points the other way |
| IntervalFields.SignIsOfLeadingPart | src/odbc_driver/common/odbc_interval.cpp:36-50 | the sign is that of the months, or without them of the days, or without both of the microseconds |
| IntervalFields.IntervalStruct.SetSignal | src/odbc_driver/common/odbc_interval.cpp:36-50 | the sign of the most significant part that is not zero |
| IntervalFields.IntervalStruct.SetDay | src/odbc_driver/common/odbc_interval.cpp:62-67 | days and months of 30 days, in 32 bits |
| IntervalFields.IntervalStruct.SetHour | src/odbc_driver/common/odbc_interval.cpp:69-79 | all the hours in 32 bits, and what remains below the hour |
| IntervalFields.IntervalStruct.SetMinute | src/odbc_driver/common/odbc_interval.cpp:81-93 | all the minutes in 32 bits, and what remains below the minute |
| IntervalFields.IntervalStruct.SetDayToSecond | src/odbc_driver/common/odbc_interval.cpp:108-142 | step by step, the fields of days to seconds |
| IntervalFields.IntervalStruct.SetHourToSecond | src/odbc_driver/common/odbc_interval.cpp:144-168 | step by step, the fields of hours to seconds |
| IntervalFields.IntervalStruct.SetMinuteToSecond | src/odbc_driver/common/odbc_interval.cpp:170-181 | step by step, the fields of minutes to seconds |

## Left out

- `OdbcFetch.Materialize`: not for a cursor whose result end was seen while chunks are held, for which it never returns, as
  `EndSeenPullsForever` shows; memory that was released is not modelled, only that its chunk is no longer held.
- `LazyScrollShowsFlatExactlyWhen`: equal chunks that the rowset size divides; for other chunks, see what holds once all is held.
- `GetParamValues`: without a parameter status array, so a failed value always ends the execution.
- `SetValue`: wide text, and how the bytes of a number, date or numeric are made into a value of the engine.
- `DataReadsBack`: texts whose length, cut to 32 bits, is the mark of a terminated text, and which are measured instead.
- `FillParamCharDataBuffer`: what lies in front of the application's buffer, where the bytes that a length mark loses go.
- `PutData`: that the data behind a pointer is the application's own memory, which it may change later.
- `Add`: intervals with months, which need the calendar's months.
- `DescribeColW`: column number 0, from which the driver subtracts one, and the other answers about a column.
- `WalkReadsRecordsInOrder`: non-null text and length pointers; record numbers end at 32767 and the walk with them.
- Absolute positioning, row counts and dummy fetches of the cursor.
- `ColumnsShowFlatExactlyWhen`: columns with NULLs, beyond the inputs of `FirstTwiceResumes`.
- Where bound columns and indicators lie in the application's memory, row status arrays, and the conversions of fixed-width
  columns, whose codes are parameters.
- The statement's `open` flag in the cursor, and clearing an error when a failed result is pulled again.
- The lambda's selection vectors of captured columns are one vector; results whose inputs are all constant.
- Wide-character diagnostics, the SQLSTATE, native error and other fields of a record, handle type checks, message
  formatting, and messages with embedded NUL characters.
- Bind offsets, status arrays, the row counter of SQLParamData, and what happens
  when a second data-at-execution parameter of an array finds the pool in use beyond the copy into its own buffer.
- A parameter descriptor that the application allocated and set, whose octet lengths the driver does not read.
- More than 32768 diagnostic records, whose indexes would not fit the index vector.
- Two parameters that share one buffer or indicator: each parameter's buffers are values of its own record.
- What follows the last execution of a batch: the first fetch and the correction of result columns.
- Intervals with months in the calendar, month buckets, time zones and daylight saving; the calendar's time is exact where
  the original stores it in a floating-point number, which rounds beyond 2^53 milliseconds.
- Estimated cardinalities, constant and flattened vector forms of the range functions.
- Seconds-only intervals, years and months, whose fields do not add up to the interval, and the type field of the structure.
- Catalog functions, connection handling, attributes, descriptors other than the fields above, and the engine itself.
