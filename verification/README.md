# Verification of the btck bindings

btck wraps Bitcoin Core behind a C API, a C++ header and bindings for other
languages. This project models, in Dafny, the parts of it that hold state,
arithmetic and protocol of their own, and proves what their documentation and
their callers rely on. `dafny verify dfyconfig.toml` checks everything.

**Byte sinks** (`WriterStream`, `WriterSpec`, `RelocationBound`, `BytesWriter`,
`SinkSpec`, `Sinks`, `Memory`). A serializer hands chunks to a C callback; the stream stops at the first
callback that fails. Python's client collects them in a `PyBytesWriter` (256 bytes
inline, then a heap block overallocated by 1/4, or 1/2 on Windows), C++'s client in a
vector. `WriterSpec` gives each operation of the writer as a function of its state;
the class `BytesWriter.PyBytesWriter` does it in place with arrays and an allocator
that may refuse any request, and each of its methods is proved equal to that function.

**Slice views** (`SliceIndices`, `SliceViews`, `SliceObjects`). Slices of slices are
lazy views; the index arithmetic is `PySlice_Unpack` and `PySlice_AdjustIndices` of
the Python/C API ("Slice Objects"), compared with the walk of `range(start, stop,
step)` and with the positions Python's documentation lets a slice select.
`SliceObjects` holds the objects themselves with their reference counts.

**Sized printing** (`SizedPrint`, `FlagText`, `FlagForm`, `FlagPrinter`, `TwoPass`). The flag
printer chains `snprintf` calls through a context; clients measure, allocate, fill.
`FlagForm` says character by character what a flag word prints as.
The flag table is a parameter; `FlagText.FLAG_TABLE` is the source's. A `uint32_t`
flag word is the set of its one bits, so `&`, `|` and `& ~` are intersection, union
and difference.

**Ownership and errors** (`Ownership`, `WrapperObjects`, `ErrorTransport`,
`ErrorObjects`). Runs of any number of `wrapper` variables of either policy over the C
library's handles, whose addresses may be reused after a free, as values and as objects
updated in place. The object behind a handle has data and parts; accessors lend out the
parts, and the library's copy functions copy what a pointer refers to. And the way of an exception through
`TranslateException`, `BtcK_Error`, `WrapFn`, `out_ptr`, `invoke`,
`translate_error` and Python's `SetError`, on every schedule of refused allocations.

**Iterators** (`RangeIterator`). `range_iterator` with its wrapping `size_t` index
against the integer laws of [random.access.iterators] in C++20.

The target is a 64-bit one: `size_t`, `ptrdiff_t` and `Py_ssize_t` have 64 bits, `int`
has 32.

## Where the code falls short

Each of these is proved, with the exact condition under which the code does what it should.

- Relocation by reallocation is linear in the capacity over all runs of a given total
  exactly when line 49 of `_bytes_writer.c` would let the writer overallocate for that total
  (`RelocationBound.LinearIff`, both factors, every total; `WriterSpec.GeometricGrowth` for
  one step). The totals beyond the guard exceed two thirds of PY_SSIZE_T_MAX, and the
  runs that violate the bound request no block larger than their total, so for totals up to
  PY_SSIZE_T_MAX less the header of a bytes object no request is one that CPython refuses by
  its size alone.
- `to_bytes` does not check `PyBytesWriter_Create(0)`: it uses a null writer exactly when that
  allocation is refused and the serializer does not throw before its first write
  (`SinkSpec.PythonAllOrNothing`).
- When a serializer throws by itself and no write failed, `to_bytes_` rethrows a null
  exception pointer (`SinkSpec.CppDefinedIff`).
- Copy-style printers cut the length down to an `int`, and both clients compute
  `length + 1` in `int`: two passes rebuild the text exactly when it is shorter than
  `INT_MAX` (`TwoPass.CopyExactIff`).
- Self-move-assignment of a non-null owned wrapper leaves it dangling
  (`Ownership.SelfMoveExact`, `Ownership.SelfMoveThenDestroyFaults`).
- A system_error of any other category loses its code, and one of a category named
  "Memory" arrives as bad_alloc (`ErrorTransport.PreservedIff`).
- The sign of an iterator difference agrees with the order exactly while the difference
  fits a `ptrdiff_t` (`RangeIterator.OrderAgreesIff`).

## Readings of the source

- `_slice.c` lines 63-76 never assign `item` on a derived slice. It is modelled as NULL,
  the only reading under which lines 36-41 reach the parent.
- `std::swap(ptr_, wrapper(other).ptr_)` in `btck.hpp` line 289 is modelled as copy and swap.
- `_PyBytes_Resize` releases the old block when it fails and leaves `obj` NULL; a writer
  in that state is "broken" and may only be discarded.

## Model

| member | source | states |
|---|---|---|
| WriterStream.StopsAtFirstFailure | src/util/writer_stream.hpp:21-26 | exactly the callbacks up to the first failing one run, each on the state the one before left; none runs afterwards |
| WriterStream.FailsIffSomeWriteFails | src/btck_transaction.cpp:60-71 | the C call returns nonzero if and only if some write fails or the serializer throws |
| WriterSpec.RefusedWrite | bindings/python/src/_bytes_writer.c:73-90 | when a write is refused, that the size guard leaves the writer unchanged, and that bytes are lost exactly when a heap block could not be enlarged |
| WriterSpec.WriteKeepsSized | bindings/python/src/_bytes_writer.c:39-90 | size <= allocated <= max(256, size + size/F) and no Py_ssize_t overflow, kept by every write |
| WriterSpec.GeometricGrowth | bindings/python/src/_bytes_writer.c:48-52 | one reallocation grows the capacity by more than (F+1)/F if and only if the guard is open or the request itself is that large |
| WriterSpec.WritesContents | bindings/python/src/_bytes_writer.c:154-173 | after any run the live bytes are the accepted chunks in order, across the inline-to-heap switch and every regrow |
| WriterSpec.NoWriteOnBroken | bindings/python/src/_util.c:23-32 | no callback of a run ever finds the writer broken |
| WriterSpec.LinearRelocation | bindings/python/src/_bytes_writer.c:39-90 | over any run from Create(0) relocated bytes are at most F*(capacity-256) and (F+1)*size, and the number of reallocations is logarithmic in the capacity |
| WriterSpec.ClosedGuardMovesAll | bindings/python/src/_bytes_writer.c:49-51 | beyond the guard each single-byte write moves the whole block |
| RelocationBound.ClosedGuardBreaksBound | bindings/python/src/_bytes_writer.c:48-52 | for every total beyond the guard and both factors, a run of that total that relocates more than F*(capacity-256) and requests no more than the total |
| RelocationBound.LinearIff | bindings/python/src/_bytes_writer.c:48-52 | all runs of a total keep relocation linear if and only if the guard is open for that total |
| BytesWriter.PyBytesWriter.Resize | bindings/python/src/_bytes_writer.c:39-71 | the in-place resize is the specified reserve step, keeps the bytes, and exchanges one block for the other |
| BytesWriter.PyBytesWriter.Grow | bindings/python/src/_bytes_writer.c:73-90 | both guards leave the writer as it was; otherwise the old bytes survive and the size is the sum, negative deltas included |
| BytesWriter.PyBytesWriter.Create | bindings/python/src/_bytes_writer.c:92-116 | negative sizes fail, a failed construction gives every block back, Create(0) is the empty writer |
| BytesWriter.PyBytesWriter.Discard | bindings/python/src/_bytes_writer.c:118-126 | releases exactly the blocks of the writer, broken or not, and accepts NULL |
| BytesWriter.PyBytesWriter.FinishAndFree | bindings/python/src/_bytes_writer.c:128-152 | in all three cases the result holds exactly the bytes written, the writer is gone and only the result stays allocated |
| BytesWriter.PyBytesWriter.WriteBytes | bindings/python/src/_bytes_writer.c:154-173 | appends the chunk or the NUL-terminated string a negative size asks for, as specified, on every refusal |
| SinkSpec.PythonAllOrNothing | bindings/python/src/_util.c:23-32 | on every failure schedule Python returns all chunks concatenated or NULL, and exactly when it uses a null writer instead |
| SinkSpec.PythonCollectsIff | bindings/python/src/_util.c:23-32 | Python returns the bytes if and only if the serializer does not throw, they fit Py_ssize_t, and every request the chunks call for is granted |
| SinkSpec.PythonUnrefused | bindings/python/src/_util.c:23-32 | without refusals Python returns the bytes if and only if they fit Py_ssize_t |
| SinkSpec.CppRethrowsFirst | src/btck.cpp:37-67 | the C++ client rethrows precisely the exception of the first failing write, having stored exactly the chunks before it |
| SinkSpec.CppDefinedIff | src/btck.cpp:61-64 | the rethrow has no defined behaviour exactly when the serializer threw and no write failed |
| SinkSpec.SinksAgree | src/btck.cpp:37-67 | the Python and the C++ sink return the same bytes for every serializer, each of them exactly when nothing it does fails |
| Sinks.ToBytesOfPython | bindings/python/src/_util.c:23-32 | the running client returns what is specified, and every block obtained is released or is the result |
| Sinks.ToBytesOfCpp | src/btck.cpp:37-67 | the running client returns or rethrows what is specified |
| Sinks.StreamWrite | src/util/writer_stream.hpp:21-26 | throws if and only if the callback returned nonzero, and leaves the sink as the callback left it |
| Sinks.Serialize | src/btck_transaction.cpp:60-71 | the loop over the chunks is the specified drive, for either callback |
| SliceIndices.UnpackKeepsSelection | bindings/python/src/_slice.c:58-61 | clipping arbitrary integers to Py_ssize_t never changes which positions are selected |
| SliceIndices.AdjustStaysInRange | bindings/python/src/_slice.c:68-69 | adjusted ends fit the sequence, the count does not exceed its length, no intermediate result overflows |
| SliceIndices.WalkIsProgression | bindings/python/src/_slice.c:68-69 | the returned length is the number of values of range(start, stop, step), whose k-th value is start + k*step |
| SliceIndices.IndicesAreSelected | bindings/python/src/_slice.c:68-74 | the indices are exactly the positions Python selects: none omitted, none added |
| SliceIndices.IndicesArePython | bindings/python/src/_slice.c:57-74 | end to end, for arbitrary Python integers: the indices of the slice are exactly the positions Python selects |
| SliceIndices.ItemStaysInParent | bindings/python/src/_slice.c:29-42 | every index below the length maps inside the parent and neither product nor sum leaves Py_ssize_t |
| SliceViews.SliceKeepsWellFormed | bindings/python/src/_slice.c:57-77 | slicing keeps every index of every view in bounds, at any depth |
| SliceViews.ResolveIsAffine | bindings/python/src/_slice.c:29-42 | a chain of any depth resolves each index by one composed affine map into the root, and any other index is an IndexError |
| SliceViews.ResolveIsMonotone | bindings/python/src/_slice.c:29-42 | root indices are distinct and strictly monotone in the sign of the product of the steps |
| SliceViews.ChainDenotesNested | bindings/python/src/_slice.c:44-77 | nested slices at any depth have the length and elements of Python slicing by value |
| SliceViews.SubscriptIsPython | bindings/python/src/_slice.c:46-55 | integer subscripts, negative ones included, are Python's on the sliced value |
| SliceViews.AdjacentSlices | bindings/python/src/_slice.c:29-77 | for every view of every chain v[a:b] followed by v[b:c] resolves index by index like v[a:c] and shows the concatenation |
| SliceViews.DoubleReversal | bindings/python/src/_slice.c:57-77 | reversing any view of any chain twice shows what the view showed |
| SliceObjects.Item | bindings/python/src/_slice.c:29-42 | the recursive accessor calls the root accessor on the viewed object at the resolved index, or reports an IndexError |
| SliceObjects.SubscriptIndex | bindings/python/src/_slice.c:46-55 | the same for subscripts |
| SliceObjects.Runtime.SliceNew | bindings/python/src/_slice.c:104-116 | a root slice of an object, with all counts kept |
| SliceObjects.Runtime.SubscriptSlice | bindings/python/src/_slice.c:57-77 | a derived slice views the adjusted part of its parent; a zero step or a refused allocation changes nothing |
| SliceObjects.Runtime.DecRef | bindings/python/src/_slice.c:18-22 | giving up a reference keeps every count equal to external references plus live viewers |
| SliceObjects.Runtime.Drop | bindings/python/src/_slice.c:18-22 | the cascade of deallocations terminates and restores that invariant |
| SliceObjects.LiveIffHeld | bindings/python/src/_slice.c:18-22 | an object exists if and only if an external reference holds it, directly or through slices: no leak, no early free |
| SizedPrint.SnprintfBytes | src/verification_flags.c:18-31 | which byte of the buffer a sized print writes, and that all others stay |
| SizedPrint.PrintExtends | src/verification_flags.c:18-31 | printing one more piece is as if the longer text had been printed at once, wherever the truncation falls |
| SizedPrint.ChainIsOneSnprintf | src/verification_flags.c:18-31 | a chain of prints leaves the buffer, count and remaining size of one snprintf of the whole text |
| FlagText.ParseUndoesText | src/verification_flags.c:53-79 | the printer accepts exactly the words within the table and the parser undoes it on them |
| FlagText.TextIsInjective | src/verification_flags.c:48-80 | the printed form determines the flags |
| FlagText.SplitJoin | src/verification_flags.c:69-77 | splitting at the separator gives the printed names back |
| FlagText.ParseSelected | src/verification_flags.c:69-77 | the names selected from any prefix of the table carry exactly the bits of the word that the prefix names |
| FlagText.SourceTable | src/verification_flags.c:38-46 | the source's table meets the conditions, and the macro ALL is the union of its flags |
| FlagForm.KeywordForm | src/verification_flags.c:53-63 | the whole mask prints as ALL, the empty word as NONE, and nothing is printed exactly for words with a bit no flag names |
| FlagForm.PrintedForm | src/verification_flags.c:65-79 | every other word prints as the names of exactly its flags, in table order, with a space, a bar and a space between neighbours and nothing else |
| FlagForm.SingleFlagForm | src/verification_flags.c:69-77 | a single flag of any table prints as its own name |
| FlagForm.SourceForms | include/btck/btck.h:70-95 | at the bits of the header: what each of the seven flags, ALL and NONE print as |
| FlagForm.SourcePairForm | src/verification_flags.c:61-77 | a pair of the source's flags, and a bit without a name |
| FlagPrinter.PrintContext.PrintTwo | src/verification_flags.c:18-31 | the context update is the specified print |
| FlagPrinter.PrintEntries | src/verification_flags.c:65-79 | the loop over the table leaves buffer, cursor, remaining size and total as one print of the whole text |
| FlagPrinter.ToString | src/verification_flags.c:48-80 | for every flag word and buffer size, NULL included: the full length and the buffer of one snprintf of the text that FlagForm.KeywordForm and FlagForm.PrintedForm describe, or -1 and an untouched buffer for unknown bits |
| TwoPass.TwoPassIsExact | src/btck.cpp:69-79 | two passes rebuild the text for every printer that returns its full length and fills length + 1 bytes |
| TwoPass.FlagsPrinterPrints | src/verification_flags.c:48-80 | the flag printer meets that contract |
| TwoPass.CopyPrinterPrints | src/btck_block.cpp:91-96 | the copy-style printers meet it |
| TwoPass.CopyBytes | src/btck_block.cpp:91-96 | for every buffer and size, each byte a copy-style printer leaves: the leading characters that fit, everything else as it was; and the full length returned at every size |
| TwoPass.FlagsBytes | src/verification_flags.c:48-80 | the same for the flag printer, terminator and truncation included |
| TwoPass.FlagsRoundTrip | src/btck.cpp:69-79 | the string built from flags parses back to them, and building fails exactly for unknown bits |
| TwoPass.CopyExactIff | src/btck_transaction.cpp:73-79 | two passes over a copy-style printer are exact if and only if the text is shorter than INT_MAX, and what comes of every longer one: a prefix, an overflow or a failure |
| TwoPass.CopyToString | src/btck_block.cpp:91-96 | byte by byte, the first min(len, size) characters of the text and the caller's bytes after them; the size is returned whatever len is |
| TwoPass.BuildString | src/btck.cpp:69-79 | the running client builds what is specified for either kind of printer |
| Ownership.OwnershipSafety | include/btck/btck.hpp:258-310 | over every run: one owned wrapper per live handle, no double free, no lent pointer freed, nothing left once no wrapper is |
| Ownership.StepKeepsInv | include/btck/btck.hpp:266-298 | each construction, copy, conversion, move, assignment and destruction keeps the correspondence |
| Ownership.StepEffect | include/btck/btck.hpp:241-298 | a throwing step changes nothing, the target included; copies are handles of their own, moves empty their source, what the target owned is freed, unowned targets free nothing, other variables stay |
| Ownership.StepValues | include/btck/btck.hpp:266-298 | a copied, converted, moved or assigned wrapper refers to the value its source referred to before, self-copy and the freeing of the old object included |
| Ownership.StepKeepsObjects | src/util/api.hpp:40-50 | no operation changes the object behind any handle that stays live |
| Ownership.RunKeepsValue | include/btck/btck.hpp:258-310 | over any legal run an owning wrapper that no operation targets keeps its value |
| Ownership.SelfMoveExact | include/btck/btck.hpp:293-298 | self-move-assignment is harmless if and only if there is nothing to free |
| Ownership.SelfMoveThenDestroyFaults | include/btck/btck.hpp:285-298 | the destructor after a self-move frees the handle again |
| WrapperObjects.Wrapper.AssignCopy | include/btck/btck.hpp:287-291 | copy, swap and destruction of the temporary, self-assignment included; afterwards this wrapper refers to the value the operand's pointer referred to before |
| WrapperObjects.Wrapper.CopyFrom | include/btck/btck.hpp:266-283 | copy and conversion: a new wrapper referring to the value the source's pointer refers to, or none when the copy fails |
| WrapperObjects.Wrapper.AssignMove | include/btck/btck.hpp:293-298 | frees, then takes the pointer and nulls the source |
| WrapperObjects.Program.Perform | include/btck/btck.hpp:266-298 | every operation on wrapper objects, over any number of variables, is the specified step |
| WrapperObjects.Program.Execute | include/btck/btck.hpp:258-310 | a legal program over wrapper objects ends where its run leads, keeps the correspondence, and leaks nothing once no wrapper is left |
| ErrorTransport.CrossingPreserves | src/btck.cpp:25-35 | which exception arrives for each that leaves |
| ErrorTransport.PreservedIff | src/util/error.cpp:15-33 | code and category survive if and only if the category is one of the three; the message and bad_alloc likewise have exact conditions, and an error that could not be built reads as bad_alloc |
| ErrorTransport.Reported | src/util/error.cpp:15-33 | what a C caller reads: the exception's own text, the system_error's code and category, otherwise -1 with "Memory" exactly for bad_alloc and "Unknown" for the rest; and the sentinel's three fields |
| ErrorTransport.PythonAgreesWithCpp | bindings/python/src/_error.c:14-32 | Python and C++ tell out of memory and verification errors apart alike for every exception, and Python shows the text it had in the library |
| ErrorTransport.CrossingIsIdempotent | src/btck.cpp:25-35 | crossing any number of boundaries ends as crossing one, unless some error object could not be built: then as bad_alloc |
| ErrorObjects.ErrorLibrary.New | src/util/error.c:22-40 | an error with copies of both texts, or the sentinel with every block of the failed construction given back |
| ErrorObjects.ErrorLibrary.Free | src/util/error.c:42-51 | frees the object and its parts once, and never the sentinel |
| ErrorObjects.ErrorLibrary.TranslateException | src/util/error.cpp:15-33 | an object with the exception's own text, the system_error's code and category or else -1 and "Memory" or "Unknown"; the sentinel, with its three fields, exactly when a request is refused |
| ErrorObjects.ErrorLibrary.RunBody | src/util/error.hpp:15-19 | the function's own invocations run in order, and their exceptions leave it or are caught, as specified |
| ErrorObjects.ErrorLibrary.WrapFn | src/util/error.hpp:15-30 | result or default; the output parameter is filled on failure only, and nothing is built without one |
| ErrorObjects.ErrorLibrary.Invoke | include/btck/btck.hpp:509-518 | for any nesting of invocations, propagating or caught, and any refusals: a function whose course ends with a value gives exactly that value, any other the specified exception, and no error object is leaked or freed twice |
| ErrorObjects.InvokeEnds | include/btck/btck.hpp:509-518 | a caller gets a value exactly when the function's course ends with one, whatever is refused, and otherwise the exception it ends with, crossed once, or bad_alloc after a refusal |
| ErrorObjects.GuardedGives | src/util/error.hpp:15-19 | a function that returns v after any invocations, successful or caught, gives v on every schedule |
| ErrorObjects.ErrorLibrary.SetError | bindings/python/src/_error.c:14-32 | raises what the error stands for and frees it |
| ErrorObjects.ErrorLibrary.CallFromPython | bindings/python/src/transaction.c:80-89 | the function's value, or the Python exception of what left it, with nothing leaked |
| ErrorObjects.PropagationCrossesAll | include/btck/btck.hpp:509-518 | an exception that propagates through nested invocations crosses one boundary for each, with the error objects built or not as the schedule says |
| ErrorObjects.PropagationIsOneCrossing | include/btck/btck.hpp:509-518 | so at any depth it arrives as after one crossing, or as bad_alloc when some error object could not be built |
| RangeIterator.DistanceLaws | include/btck/btck.hpp:121-141 | i + (j - i) is j and j - (j - i) is i for all size_t indices |
| RangeIterator.StepLaws | include/btck/btck.hpp:108-118 | (i + n) - n is i and (i + n) - i is n for all indices and offsets |
| RangeIterator.MovedIsSum | include/btck/btck.hpp:82-118 | any run of steps ends where the integer sum says, even when it wraps or leaves the range on the way |
| RangeIterator.DistanceExactIff | include/btck/btck.hpp:121-126 | the difference is the integer one if and only if that fits ptrdiff_t |
| RangeIterator.OrderAgreesIff | include/btck/btck.hpp:143-148 | order and sign of the difference agree if and only if the difference fits ptrdiff_t |
| RangeIterator.IntegerOnRanges | include/btck/btck.hpp:82-155 | on ranges of at most PTRDIFF_MAX elements all arithmetic is that of integers |
| RangeIterator.SubscriptReaches | include/btck/btck.hpp:76-80 | operator[] reaches every element from any iterator, backwards too, through the wrapped offset |
| RangeIterator.Forward | include/btck/btck.hpp:171-183 | begin to end visits every element once, in order |
| RangeIterator.Backward | include/btck/btck.hpp:185-191 | rbegin to rend visits every element once, in reverse order |

## Left out

- Parsing, serialization, hashing and script verification: they belong to Bitcoin Core. A serializer is an arbitrary list of chunks that may end in an exception of its own.
- Sinks.WriteBytes: chunks longer than PY_SSIZE_T_MAX, whose converted size would be negative and ask for strlen, are excluded; no object is that large.
- BytesWriter.PyBytesWriter.WriteBytes: calls on a broken writer are excluded; `to_bytes` makes none (WriterSpec.NoWriteOnBroken).
- Memory.Allocator.ResizeBytes: always relocates, the worst case; a reallocation that extends the block in place moves fewer bytes than are counted.
- WriterSpec.Finish: an empty result is a request that may be refused; CPython hands out a shared empty bytes object, which cannot fail.
- RelocationBound.LinearForTotal: the allocator's refusals are a schedule of requests; refusals by size alone, as CPython's of blocks close to PY_SSIZE_T_MAX, are among the schedules but not tied to the size.
- Ownership.Object: the objects behind handles do not change once made; members that update one in place through its handle are not modelled.
- ErrorObjects.Proc: what a C function does besides invoking others, and how its course depends on the values they return, is not modelled; only their exceptions direct it.
- FlagPrinter.Vsnprintf: an encoding error or a text beyond INT_MAX, for which it returns a negative value, does not occur for tables whose texts fit an int, so the loop's early return on it is not modelled.
- TwoPass.BuildString: the Python client's PyUnicode_New may fail or deliver a block with other contents; TwoPass.TwoPassIsExact covers every block it delivers.
- `src/chain.cpp` and `Chain::find`: they rest on chainstate code that is not part of this model.
- The argument checks of `verify`, the bitwise flag operators, the message tables and the BlockHash copy: each is settled by reading one branch.
- The Go, Java, Julia, Lua, Rust and Swift bindings, and Python's type tables, argument parsing and exception state: foreign-call glue. Failures are reduced to result values.
- Thread interleaving; and pointers past the end of a buffer, which are offsets here.
