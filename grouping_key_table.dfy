/** The table of expected grouping keys, one lemma per row, and the driver that runs one row
    through the batch processor with the identity accumulator. Each row is stated for any
    non-empty strings in place of the table's literals ("module", "func_1", ...), so the
    table's own row is one instance of it. */
module GroupingKeyTable {
  import opened Wrappers
  import opened Bytes
  import opened ModelPb
  import opened FakeHashing
  import opened SetGroupingKey

  /** A frame that is not excluded from grouping. */
  function Frame(moduleName: ByteString, filename: ByteString, classname: ByteString,
                 functionName: ByteString): StacktraceFrame
  {
    StacktraceFrame(moduleName, filename, classname, functionName, false)
  }

  /** "empty": neither exception nor log gives the empty key. */
  lemma Empty()
    ensures GroupingKey(None, None) == []
  {
  }

  /** "exception_type_log_parammessage": the type, then the parameterised message. */
  lemma {:induction false} ExceptionTypeLogParamMessage(exceptionType: ByteString, logParamMessage: ByteString)
    requires exceptionType != [] && logParamMessage != []
    ensures GroupingKey(Some(Exception(exceptionType, [], [], [])),
                        Some(ErrorLog([], logParamMessage, []))) ==
            HexifyStrings([exceptionType, logParamMessage])
  {
    var e := Exception(exceptionType, [], [], []);
    assert TreeTerms(e, TypePart) == [exceptionType];
    assert TreeTerms(e, FramesPart) == [];
    assert Terms(Some(e), Some(ErrorLog([], logParamMessage, []))) == [exceptionType, logParamMessage];
  }

  /** The exception of "exception_stacktrace": three root frames, the last excluded, and two
      causes, the first of which has a nested cause of its own. */
  function StacktraceException(moduleName: ByteString, filename: ByteString, classname: ByteString,
                               func1: ByteString, func2: ByteString, func3: ByteString,
                               func4: ByteString, func5: ByteString, func6: ByteString): Exception
  {
    Exception([], [],
      [Frame(moduleName, filename, classname, func1),
       Frame([], filename, classname, func2),
       StacktraceFrame([], [], [], func3, true)],
      [Exception([], [], [Frame([], [], classname, func4)],
         [Exception([], [], [Frame([], [], [], func5)], [])]),
       Exception([], [], [Frame([], [], [], func6)], [])])
  }

  /** The root frames of "exception_stacktrace": module wins over filename and classname, filename
      over classname, each followed by the function; the excluded frame gives nothing. */
  lemma {:induction false} RootFrames(moduleName: ByteString, filename: ByteString, classname: ByteString,
                                      func1: ByteString, func2: ByteString, func3: ByteString)
    requires moduleName != [] && filename != [] && func1 != [] && func2 != []
    ensures StacktraceTerms([Frame(moduleName, filename, classname, func1),
                             Frame([], filename, classname, func2),
                             StacktraceFrame([], [], [], func3, true)]) ==
            [moduleName, func1, filename, func2]
  {
    var f1, f2, f3 := Frame(moduleName, filename, classname, func1), Frame([], filename, classname, func2),
                      StacktraceFrame([], [], [], func3, true);
    assert [f1, f2, f3][1..] == [f2, f3];
    assert [f2, f3][1..] == [f3];
    assert [f3][1..] == [];
    assert StacktraceTerms([f3]) == [];
    assert StacktraceTerms([f2, f3]) == FrameTerms(f2) == [filename, func2];
    assert FrameTerms(f1) == [moduleName, func1];
  }

  /** The frame terms of the "exception_stacktrace" exception, in depth-first order. */
  lemma {:induction false} StacktraceExceptionFrames(moduleName: ByteString, filename: ByteString,
                                                     classname: ByteString, func1: ByteString,
                                                     func2: ByteString, func3: ByteString,
                                                     func4: ByteString, func5: ByteString,
                                                     func6: ByteString)
    requires moduleName != [] && filename != [] && classname != []
    requires func1 != [] && func2 != [] && func4 != [] && func5 != [] && func6 != []
    ensures TreeTerms(StacktraceException(moduleName, filename, classname,
                                          func1, func2, func3, func4, func5, func6), FramesPart) ==
            [moduleName, func1, filename, func2, classname, func4, func5, func6]
  {
    var e := StacktraceException(moduleName, filename, classname, func1, func2, func3, func4, func5, func6);
    var first := e.cause[0];
    var nested := first.cause[0];
    var second := e.cause[1];
    OneFrame(Frame([], [], [], func5));
    assert OwnTerms(nested, FramesPart) == [func5];
    assert TreeTerms(nested, FramesPart) == [func5];
    OneCause(nested, FramesPart);
    OneFrame(Frame([], [], classname, func4));
    assert OwnTerms(first, FramesPart) == [classname, func4];
    assert TreeTerms(first, FramesPart) == [classname, func4, func5];
    OneFrame(Frame([], [], [], func6));
    assert OwnTerms(second, FramesPart) == [func6];
    assert TreeTerms(second, FramesPart) == [func6];
    TwoCauses(first, second, FramesPart);
    RootFrames(moduleName, filename, classname, func1, func2, func3);
    assert OwnTerms(e, FramesPart) == [moduleName, func1, filename, func2];
  }

  /** No exception of the "exception_stacktrace" tree has a type. */
  lemma {:induction false} StacktraceExceptionTypes(moduleName: ByteString, filename: ByteString,
                                                    classname: ByteString, func1: ByteString,
                                                    func2: ByteString, func3: ByteString,
                                                    func4: ByteString, func5: ByteString,
                                                    func6: ByteString)
    ensures TreeTerms(StacktraceException(moduleName, filename, classname,
                                          func1, func2, func3, func4, func5, func6), TypePart) == []
  {
    var e := StacktraceException(moduleName, filename, classname, func1, func2, func3, func4, func5, func6);
    var first := e.cause[0];
    var nested := first.cause[0];
    var second := e.cause[1];
    OneCause(nested, TypePart);
    TwoCauses(first, second, TypePart);
  }

  /** "exception_stacktrace": frames depth-first through the causes, module or else filename or else
      classname followed by the function; the excluded frame and the log's frame are left out. */
  lemma {:induction false} ExceptionStacktrace(moduleName: ByteString, filename: ByteString,
                                               classname: ByteString, func1: ByteString,
                                               func2: ByteString, func3: ByteString,
                                               func4: ByteString, func5: ByteString,
                                               func6: ByteString, abc: ByteString)
    requires moduleName != [] && filename != [] && classname != [] && abc != []
    requires func1 != [] && func2 != [] && func4 != [] && func5 != [] && func6 != []
    ensures GroupingKey(Some(StacktraceException(moduleName, filename, classname,
                                                 func1, func2, func3, func4, func5, func6)),
                        Some(ErrorLog([], [], [Frame([], abc, [], [])]))) ==
            HexifyStrings([moduleName, func1, filename, func2, classname, func4, func5, func6])
  {
    StacktraceExceptionFrames(moduleName, filename, classname, func1, func2, func3, func4, func5, func6);
    StacktraceExceptionTypes(moduleName, filename, classname, func1, func2, func3, func4, func5, func6);
    var e := StacktraceException(moduleName, filename, classname, func1, func2, func3, func4, func5, func6);
    assert Terms(Some(e), Some(ErrorLog([], [], [Frame([], abc, [], [])]))) ==
           [moduleName, func1, filename, func2, classname, func4, func5, func6];
  }

  /** "log_stacktrace": without an exception the log's frames are hashed. */
  lemma {:induction false} LogStacktrace(functionName: ByteString)
    requires functionName != []
    ensures GroupingKey(None, Some(ErrorLog([], [], [Frame([], [], [], functionName)]))) ==
            HexifyStrings([functionName])
  {
    OneFrame(Frame([], [], [], functionName));
    assert StacktraceTerms([Frame([], [], [], functionName)]) == [functionName];
  }

  /** The exception of "exception_message": messages only, with a cause nested under the first cause. */
  function MessageException(message1: ByteString, message2: ByteString, message3: ByteString,
                            message4: ByteString): Exception
  {
    Exception([], message1, [],
      [Exception([], message2, [], [Exception([], message3, [], [])]),
       Exception([], message4, [], [])])
  }

  /** "exception_message": the exception messages depth-first; the log's message is not used. */
  lemma {:induction false} ExceptionMessage(message1: ByteString, message2: ByteString,
                                            message3: ByteString, message4: ByteString,
                                            logMessage: ByteString)
    requires message1 != [] && message2 != [] && message3 != [] && message4 != []
    ensures GroupingKey(Some(MessageException(message1, message2, message3, message4)),
                        Some(ErrorLog(logMessage, [], []))) ==
            HexifyStrings([message1, message2, message3, message4])
  {
    var e := MessageException(message1, message2, message3, message4);
    var log := Some(ErrorLog(logMessage, [], []));
    var first := e.cause[0];
    var nested := first.cause[0];
    var second := e.cause[1];
    forall part: Part
      ensures TreeTerms(e, part) ==
              OwnTerms(e, part) + OwnTerms(first, part) + OwnTerms(nested, part) + OwnTerms(second, part)
    {
      OneCause(nested, part);
      TwoCauses(first, second, part);
    }
    assert ExceptionTerms(Some(e), TypePart) == [];
    assert ExceptionTerms(Some(e), FramesPart) == [];
    assert ExceptionTerms(Some(e), MessagePart) == [message1, message2, message3, message4];
    assert Terms(Some(e), log) == [message1, message2, message3, message4];
  }

  /** "log_message": with no exception and no log frames the log's message is the key input. */
  lemma LogMessage(logMessage: ByteString)
    requires logMessage != []
    ensures GroupingKey(None, Some(ErrorLog(logMessage, [], []))) == HexifyStrings([logMessage])
  {
  }

  /** One row of the table: the error is put in a one-event batch, the batch is processed and the
      first event's key is read back. */
  method RunCase(input: Error) returns (err: Option<ByteString>, key: ByteString)
    modifies input
    ensures err == None
    ensures key == input.groupingKey == GroupingKey(input.exception, input.log)
  {
    var event := new APMEvent(input);
    var batch := new APMEvent[1] [event];
    err := ProcessBatch(batch);
    key := batch[0].error.groupingKey;
  }
}
