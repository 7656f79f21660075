# Grouping keys for error events

This project models how the `SetGroupingKey` batch processor of the APM data model computes an
error's **grouping key**: the fingerprint used to cluster occurrences of the same error. The
processor selects identifying strings from the error's exception tree (the exception and its
`Cause` chain) and from its log, writes them back to back into a hash accumulator, and stores the
lower-case hex of the digest in `Error.GroupingKey`. The behaviour is fixed by the table-driven
test `TestSetGroupingKey`, which runs the processor with `fakeHash`, an identity accumulator whose
digest is exactly the bytes written, so each expected key is the hex of the concatenated terms.

Modules:

- `Bytes` (`bytes.dfy`): Go strings as byte sequences and `strings.Join(s, "")`.
- `Hex` (`hex.dfy`): `hex.EncodeToString`, with its inverse `Decode`.
- `ModelPb` (`modelpb.dfy`): stack frames, exceptions, error logs as values; the error record and
  the event as classes, since the processor writes the key into them in place.
- `FakeHashing` (`fake_hash.dfy`): the identity accumulator `fakeHash` as a class over a byte
  buffer, and `hexifyStrings`.
- `SetGroupingKey` (`grouping_key.dfy`): the term selection as pure functions, the properties of
  the selection as lemmas, and `ProcessBatch` as a method over an array of events.
- `GroupingKeyTable` (`grouping_key_table.dfy`): one lemma per row of the test table, and the
  driver that runs one row through `ProcessBatch`.

Selection rule (`SetGroupingKey.Terms`), every empty string skipped:

1. the `Type` of every exception in the tree, depth-first, then the log's `ParamMessage`;
2. the exception tree's frames depth-first (the exception's own frames, then each cause's whole
   subtree, in order). When they give nothing, the log's frames are used instead. A frame marked
   `ExcludeFromGrouping` gives nothing. Any other frame gives the first non-empty of
   `Module`, `Filename` and `Classname`, then `Function`;
3. only when steps 1 and 2 gave nothing: the exception messages depth-first. When those give
   nothing too, the log's `Message` is used.

Three facts of the test table shape the rule. Line 80 puts `func_1` right after `module`, so a
frame with a `Module` also contributes its `Function`. The row at lines 43-52 hashes the log's
`ParamMessage` next to the exception's `Type`, so the log is consulted while an exception is
present. The `// ignored` comment on line 110 is stale: line 112 expects the log message to be the
key.

## Model

| member | source | states |
|---|---|---|
| `Bytes.Join` | model/modelprocessor/groupingkey_test.go:149 | `strings.Join(s, "")`: the strings back to back with no separator; its properties are stated by `JoinAppend` and `JoinSnoc` |
| `Bytes.JoinAppend` | model/modelprocessor/groupingkey_test.go:148-150 | joining with no separator distributes over list concatenation |
| `Bytes.JoinSnoc` | model/modelprocessor/groupingkey_test.go:148-150 | joining a list with one more string appends that string |
| `Hex.DigitValue` | model/modelprocessor/groupingkey_test.go:148-150 | a byte has a nibble value exactly when it is a lower-case hex character, and that character is the digit of its value |
| `Hex.Encode` | model/modelprocessor/groupingkey_test.go:148-150 | the encoding is twice as long as the input and uses only the characters 0-9 and a-f |
| `Hex.DecodeEncode` | model/modelprocessor/groupingkey_test.go:148-150 | decoding the hex encoding gives back the original bytes |
| `Hex.EncodeDecode` | model/modelprocessor/groupingkey_test.go:148-150 | every string that decodes is the encoding of its decoding |
| `Hex.EncodeIffDecode` | model/modelprocessor/groupingkey_test.go:148-150 | `s` is the encoding of `b` exactly when `s` decodes to `b`, so the encoding is one-to-one |
| `Hex.EncodeAppend` | model/modelprocessor/groupingkey_test.go:148-150 | the encoding of a concatenation is the concatenation of the encodings |
| `FakeHashing.FakeHash.constructor` | model/modelprocessor/groupingkey_test.go:121 | a fresh accumulator holds no bytes |
| `FakeHashing.FakeHash.Write` | model/modelprocessor/groupingkey_test.go:130-134 | appends the written bytes to the buffer and reports all of them written |
| `FakeHashing.FakeHash.Reset` | model/modelprocessor/groupingkey_test.go:132-134 | empties the buffer |
| `FakeHashing.FakeHash.Sum` | model/modelprocessor/groupingkey_test.go:136-138 | the result starts with `b` and continues with exactly the bytes written so far |
| `FakeHashing.FakeHash.Size` | model/modelprocessor/groupingkey_test.go:140-142 | the size is the length of the digest `Sum` appends |
| `FakeHashing.FakeHash.BlockSize` | model/modelprocessor/groupingkey_test.go:144-146 | the block size is one byte |
| `FakeHashing.HexifyStrings` | model/modelprocessor/groupingkey_test.go:148-150 | the expected key is twice as long as the joined strings and decodes to exactly their concatenation |
| `SetGroupingKey.FrameTerms` | model/modelprocessor/groupingkey_test.go:57-68 | the terms of one frame: nothing when excluded, otherwise the first non-empty of module, filename and classname, then the function, each only when non-empty; its properties are stated by `FrameTermsRule` |
| `SetGroupingKey.FrameTermsRule` | model/modelprocessor/groupingkey_test.go:57-68 | an excluded frame gives nothing; otherwise module, else filename, else classname comes first and the function last; a frame with both a name and a function gives exactly two terms, even when they are the same string; a frame with only a function gives just the function; no term is empty; the frame gives something exactly when it is not excluded and names something |
| `SetGroupingKey.StacktraceTerms` | model/modelprocessor/groupingkey_test.go:57-61 | the terms of a stack trace: each frame's terms, frames in their given order; its properties are stated by `StacktraceTermsContribute`, `StacktraceTermsNonEmpty`, `StacktraceTermsAppend` and `ExcludingIsRemoving` |
| `SetGroupingKey.StacktraceTermsContribute` | model/modelprocessor/groupingkey_test.go:57-61 | a stack trace gives terms exactly when one of its frames contributes |
| `SetGroupingKey.StacktraceTermsNonEmpty` | model/modelprocessor/groupingkey_test.go:57-61 | no term selected from a stack trace is empty |
| `SetGroupingKey.StacktraceTermsAppend` | model/modelprocessor/groupingkey_test.go:57-61 | frames are visited in their given order: the terms of `a + b` are those of `a`, then those of `b` |
| `SetGroupingKey.ExcludingIsRemoving` | model/modelprocessor/groupingkey_test.go:60 | marking a frame `ExcludeFromGrouping` gives the same terms as removing it |
| `SetGroupingKey.WithStacktraceSameWalk` | model/modelprocessor/groupingkey_test.go:57-75 | replacing the stack trace of any exception in the tree, at any depth, by frames that give the same terms leaves every walk over the tree unchanged |
| `SetGroupingKey.SameCauseSameWalk` | model/modelprocessor/groupingkey_test.go:62-75 | replacing one cause by a tree with the same walk leaves the walk over the list of causes unchanged |
| `SetGroupingKey.ExcludedFrameIrrelevant` | model/modelprocessor/groupingkey_test.go:57-81 | removing an excluded frame from the stack trace of any exception in the tree, at any depth, leaves the grouping key unchanged |
| `SetGroupingKey.ExcludedLogFrameIrrelevant` | model/modelprocessor/groupingkey_test.go:77-89 | removing an excluded frame from the log's stack trace leaves the grouping key unchanged |
| `SetGroupingKey.SameLogWalkSameTerms` | model/modelprocessor/groupingkey_test.go:77-112 | the terms depend on the log only through its message, its parameterised message and the terms of its stack trace |
| `SetGroupingKey.TreeTerms` | model/modelprocessor/groupingkey_test.go:62-80 | one walk over an exception tree: the exception's own type, frame terms or message, then each cause's whole subtree in order; its properties are stated by `DepthFirst`, `TreeTermsNonEmpty`, `CauseFramesFound` and `WithStacktraceSameWalk` |
| `SetGroupingKey.CauseTerms` | model/modelprocessor/groupingkey_test.go:62-75 | the walk over a list of causes: each cause's subtree in order; its properties are stated by `CauseTermsAppend`, `OneCause`, `CauseTermsSplit`, `CauseTermsFound` and `CauseTermsNonEmpty` |
| `SetGroupingKey.TreeTermsNonEmpty` | model/modelprocessor/groupingkey_test.go:57-75 | no walk over an exception tree selects an empty string |
| `SetGroupingKey.CauseTermsNonEmpty` | model/modelprocessor/groupingkey_test.go:62-75 | no walk over a list of causes selects an empty string |
| `SetGroupingKey.CauseTermsAppend` | model/modelprocessor/groupingkey_test.go:62-75 | sibling causes are walked in the order given |
| `SetGroupingKey.OneCause` | model/modelprocessor/groupingkey_test.go:62-75 | the walk over a single cause is the walk over that cause's whole subtree |
| `SetGroupingKey.CauseTermsSplit` | model/modelprocessor/groupingkey_test.go:62-75 | the walk over a list of causes is the walk over the causes before one of them, then its subtree, then the causes after it |
| `SetGroupingKey.DepthFirst` | model/modelprocessor/groupingkey_test.go:62-80 | a cause's whole subtree comes after the exception itself and all earlier siblings and before every later sibling |
| `SetGroupingKey.ContributingFrameFound` | model/modelprocessor/groupingkey_test.go:57-61 | one contributing frame of the exception's own stack trace is enough for the tree to give frame terms |
| `SetGroupingKey.CauseTermsFound` | model/modelprocessor/groupingkey_test.go:62-75 | a list of causes gives at least as many terms as any one cause's subtree |
| `SetGroupingKey.CauseFramesFound` | model/modelprocessor/groupingkey_test.go:62-75 | when any cause's subtree gives frame terms, so does the whole tree |
| `SetGroupingKey.ExceptionFramesShadowLog` | model/modelprocessor/groupingkey_test.go:77-81 | once the exception tree gives frame terms, the log's stack trace and message do not change the terms, which are the types, the parameterised message and the tree's frames |
| `SetGroupingKey.LogStacktraceWithoutException` | model/modelprocessor/groupingkey_test.go:83-89 | without an exception, log frames that give terms are hashed and the log message is not |
| `SetGroupingKey.MessageFallback` | model/modelprocessor/groupingkey_test.go:91-112 | with no type, parameterised message or frame terms, the exception messages are hashed depth-first and the log message only when they give nothing |
| `SetGroupingKey.LogFramesReplaceTreeFrames` | model/modelprocessor/groupingkey_test.go:77-89 | with an exception whose tree gives no frame terms, the log's frame terms follow the types and the parameterised message, and no message is hashed |
| `SetGroupingKey.MessagesOnlyWhenNothingElse` | model/modelprocessor/groupingkey_test.go:91-112 | once a type, the parameterised message or a frame term is selected, changing the exception messages or the log's message leaves the terms unchanged |
| `SetGroupingKey.SameWalksSameKey` | model/modelprocessor/groupingkey_test.go:43-112 | the key depends on the exception only through the types, frames and messages its walks select |
| `SetGroupingKey.Terms` | model/modelprocessor/groupingkey_test.go:39-112 | the strings selected for the key, in order (the selection rule above); its properties are stated by `TermsNonEmpty`, `ExceptionFramesShadowLog`, `LogStacktraceWithoutException`, `MessageFallback` and the row lemmas of `GroupingKeyTable` |
| `SetGroupingKey.TermsNonEmpty` | model/modelprocessor/groupingkey_test.go:39-112 | the selected strings are all non-empty |
| `SetGroupingKey.GroupingKey` | model/modelprocessor/groupingkey_test.go:118-124 | the key under the identity accumulator: the hex of the selected terms written back to back; its properties are stated by `GroupingKeyDecodes`, `SameKeyIffSameBytes` and `SameWalksSameKey`, and `ProcessBatch` stores it |
| `SetGroupingKey.GroupingKeyDecodes` | model/modelprocessor/groupingkey_test.go:118-124 | the key is twice as long as the concatenated terms and decodes to exactly those bytes |
| `SetGroupingKey.SameKeyIffSameBytes` | model/modelprocessor/groupingkey_test.go:118-124 | two errors share a key exactly when their concatenated terms are the same bytes |
| `SetGroupingKey.WriteTerms` | model/modelprocessor/groupingkey_test.go:118-124 | writing the terms one after another appends exactly their concatenation to the accumulator |
| `SetGroupingKey.ProcessError` | model/modelprocessor/groupingkey_test.go:118-124 | with a fresh identity accumulator, writing each term in order and hex-encoding `Sum(nil)` stores the grouping key of the error |
| `SetGroupingKey.ProcessBatch` | model/modelprocessor/groupingkey_test.go:118-124 | every error in the batch gets its grouping key, no other object changes, and no error is returned |
| `GroupingKeyTable.Empty` | model/modelprocessor/groupingkey_test.go:39-42 | an error with neither exception nor log has the empty key |
| `GroupingKeyTable.ExceptionTypeLogParamMessage` | model/modelprocessor/groupingkey_test.go:43-53 | the key is the hex of the type followed by the parameterised message |
| `SetGroupingKey.OneFrame` | model/modelprocessor/groupingkey_test.go:57-75 | a one-frame stack trace gives that frame's terms |
| `SetGroupingKey.TwoCauses` | model/modelprocessor/groupingkey_test.go:62-75 | the walk over two sibling causes is the first subtree's walk, then the second's |
| `GroupingKeyTable.RootFrames` | model/modelprocessor/groupingkey_test.go:57-61 | the root frames give module, func_1, filename, func_2, and the excluded frame gives nothing |
| `GroupingKeyTable.StacktraceExceptionFrames` | model/modelprocessor/groupingkey_test.go:56-80 | the tree's frame terms are module, func_1, filename, func_2, classname, func_4, func_5, func_6 in that order |
| `GroupingKeyTable.StacktraceExceptionTypes` | model/modelprocessor/groupingkey_test.go:56-76 | no exception of that tree contributes a type |
| `GroupingKeyTable.ExceptionStacktrace` | model/modelprocessor/groupingkey_test.go:54-82 | the key is the hex of the eight frame terms; the log's `abc` frame is absent |
| `GroupingKeyTable.LogStacktrace` | model/modelprocessor/groupingkey_test.go:83-90 | without an exception, a function-only log frame gives the key of the function name |
| `GroupingKeyTable.ExceptionMessage` | model/modelprocessor/groupingkey_test.go:91-107 | the key is the hex of message_1 to message_4 depth-first; the log message is absent |
| `GroupingKeyTable.LogMessage` | model/modelprocessor/groupingkey_test.go:108-113 | with no exception and no log frames, the key is the hex of the log message |
| `GroupingKeyTable.RunCase` | model/modelprocessor/groupingkey_test.go:116-125 | running one error through a one-event batch returns no error and leaves the error's grouping key in the first event |

## Left out

- The implementation file of `SetGroupingKey` is not part of this model. The selection rule is the one the test table fixes. Where the table does not decide, the model makes a choice of its own, and the lemmas named here state that choice rather than behaviour the table checks:
  - the `Type` of every cause is hashed too, and all types come before the frame terms. `ExceptionFramesShadowLog` states this order. No row of the table combines a type with frames.
  - when an exception is present but its tree gives no frame terms, the log's frames are hashed after the types and the parameterised message, and no message is hashed (`LogFramesReplaceTreeFrames`). The table checks only the case with no exception (`LogStacktraceWithoutException`).
  - messages are used only when no type, parameterised message or frame was selected. `MessagesOnlyWhenNothingElse` shows that once one of those is selected, neither the exception messages nor the log's message affect the terms. `MessageFallback` gives the other direction: with nothing else selected, the messages are hashed.
- Real digest algorithms behind `hash.Hash` (the production `NewHash`): a real digest is a foreign library. `ProcessError` always uses the identity accumulator `FakeHash`.
- `SetGroupingKey.ProcessError`: builds the list of terms first and then writes them one by one. Only the bytes that reach the accumulator supplied at line 121, and their order, are fixed; how the processor interleaves selecting and writing is not modelled.
- `FakeHashing.FakeHash.Write`: the Go error result is always nil and is not returned.
- `context.Context`, testify assertions, `t.Run` and the iteration order of the Go map holding the table: these are test plumbing.
- The table's string literals (`"module"`, `"func_1"`, ...) are replaced in the row lemmas by arbitrary non-empty byte strings, so each row lemma covers the table's row as one instance.
- Protobuf details of `modelpb.Batch` and `modelpb.Error` beyond the fields the table uses. The exception and log of an error are fixed fields, since only `GroupingKey` is written. A nil event pointer in a batch is not modelled.
