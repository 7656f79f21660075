/** The grouping key of an error: which of its strings are hashed, in which order, and the
    processor that writes the key into every error of a batch. */
module SetGroupingKey {
  import opened Wrappers
  import opened Bytes
  import opened ModelPb
  import opened FakeHashing
  import Hex

  /** A string is written to the accumulator only when it is non-empty. */
  function Term(s: ByteString): (r: seq<ByteString>)
  {
    if s == [] then [] else [s]
  }

  /** Every selected term is a non-empty string. */
  predicate AllNonEmpty(ts: seq<ByteString>)
  {
    [] !in ts
  }

  /** A frame that is not excluded and names at least one of module, file, class or function. */
  predicate Contributes(f: StacktraceFrame)
  {
    !f.excludeFromGrouping &&
    (f.moduleName != [] || f.filename != [] || f.classname != [] || f.functionName != [])
  }

  /** The terms of one frame: the first non-empty of module, filename and classname,
      then the function name; nothing for an excluded frame. */
  function FrameTerms(f: StacktraceFrame): seq<ByteString>
  {
    if f.excludeFromGrouping then []
    else
      var identity := if f.moduleName != [] then f.moduleName
                      else if f.filename != [] then f.filename
                      else f.classname;
      Term(identity) + Term(f.functionName)
  }

  /** What one frame contributes: nothing when excluded; otherwise module, else filename, else
      classname first, and the function name last; a frame naming only a function gives just
      that name; no term is empty, and the frame gives something exactly when it contributes. */
  lemma FrameTermsRule(f: StacktraceFrame)
    ensures AllNonEmpty(FrameTerms(f)) && |FrameTerms(f)| <= 2
    ensures FrameTerms(f) != [] <==> Contributes(f)
    ensures f.excludeFromGrouping ==> FrameTerms(f) == []
    ensures !f.excludeFromGrouping && f.moduleName != [] ==> FrameTerms(f)[0] == f.moduleName
    ensures !f.excludeFromGrouping && f.moduleName == [] && f.filename != [] ==>
      FrameTerms(f)[0] == f.filename
    ensures !f.excludeFromGrouping && f.moduleName == [] && f.filename == [] && f.classname != [] ==>
      FrameTerms(f)[0] == f.classname
    ensures !f.excludeFromGrouping && f.functionName != [] ==>
      FrameTerms(f)[|FrameTerms(f)| - 1] == f.functionName
    ensures |FrameTerms(f)| == 2 ==> FrameTerms(f)[1] == f.functionName
    ensures (!f.excludeFromGrouping && f.functionName != [] &&
             (f.moduleName != [] || f.filename != [] || f.classname != [])) ==> |FrameTerms(f)| == 2
    ensures !f.excludeFromGrouping && f.moduleName == [] && f.filename == [] && f.classname == [] ==>
      FrameTerms(f) == Term(f.functionName)
  {
  }

  /** The terms of a stack trace: each frame's terms, frames in their given order. */
  function StacktraceTerms(frames: seq<StacktraceFrame>): seq<ByteString>
  {
    if frames == [] then [] else FrameTerms(frames[0]) + StacktraceTerms(frames[1..])
  }

  /** A stack trace gives terms exactly when one of its frames contributes. */
  lemma {:induction false} StacktraceTermsContribute(frames: seq<StacktraceFrame>)
    ensures StacktraceTerms(frames) != [] <==> exists i | 0 <= i < |frames| :: Contributes(frames[i])
  {
    if frames != [] {
      FrameTermsRule(frames[0]);
      StacktraceTermsContribute(frames[1..]);
      assert forall i | 1 <= i < |frames| :: frames[i] == frames[1..][i - 1];
    }
  }

  /** Which string of each exception a walk over the exception tree selects. */
  datatype Part = TypePart | FramesPart | MessagePart

  /** The terms one exception contributes by itself, leaving out its causes. */
  function OwnTerms(e: Exception, part: Part): seq<ByteString>
  {
    match part
    case TypePart => Term(e.typeName)
    case FramesPart => StacktraceTerms(e.stacktrace)
    case MessagePart => Term(e.message)
  }

  /** A depth-first walk over an exception tree: the exception itself, then each cause's
      whole subtree in order, so nested causes come before later siblings. */
  function TreeTerms(e: Exception, part: Part): (r: seq<ByteString>)
  {
    OwnTerms(e, part) + CauseTerms(e.cause, part)
  }

  /** The depth-first walk over a list of sibling causes. */
  function CauseTerms(causes: seq<Exception>, part: Part): (r: seq<ByteString>)
  {
    if causes == [] then [] else TreeTerms(causes[0], part) + CauseTerms(causes[1..], part)
  }

  /** The walk over an optional (possibly nil) exception. */
  function ExceptionTerms(exception: Option<Exception>, part: Part): seq<ByteString>
  {
    if exception.Some? then TreeTerms(exception.value, part) else []
  }

  /** No frame term is an empty string. */
  lemma {:induction false} StacktraceTermsNonEmpty(frames: seq<StacktraceFrame>)
    ensures AllNonEmpty(StacktraceTerms(frames))
  {
    if frames != [] {
      FrameTermsRule(frames[0]);
      StacktraceTermsNonEmpty(frames[1..]);
    }
  }

  /** No walk over an exception tree selects an empty string. */
  lemma {:induction false} TreeTermsNonEmpty(e: Exception, part: Part)
    ensures AllNonEmpty(TreeTerms(e, part))
  {
    StacktraceTermsNonEmpty(e.stacktrace);
    CauseTermsNonEmpty(e.cause, part);
  }

  lemma {:induction false} CauseTermsNonEmpty(causes: seq<Exception>, part: Part)
    ensures AllNonEmpty(CauseTerms(causes, part))
  {
    if causes != [] {
      TreeTermsNonEmpty(causes[0], part);
      CauseTermsNonEmpty(causes[1..], part);
    }
  }

  /** The log's parameterised message, if there is a log. */
  function ParamMessage(log: Option<ErrorLog>): ByteString
  {
    if log.Some? then log.value.paramMessage else []
  }

  /** The strings hashed for an error, in order:
      the exception types and the log's parameterised message; then the exception tree's frames,
      or, when those give nothing, the log's frames; and only when nothing at all was selected so far,
      the exception tree's messages, or, when those give nothing, the log's message. */
  function Terms(exception: Option<Exception>, log: Option<ErrorLog>): seq<ByteString>
  {
    var head := ExceptionTerms(exception, TypePart) + Term(ParamMessage(log));
    var exceptionFrames := ExceptionTerms(exception, FramesPart);
    var frames := if exceptionFrames != [] || log.None? then exceptionFrames
                  else StacktraceTerms(log.value.stacktrace);
    if head + frames != [] then head + frames
    else
      var messages := ExceptionTerms(exception, MessagePart);
      if messages != [] || log.None? then messages else Term(log.value.message)
  }

  /** No empty string is ever written to the accumulator. */
  lemma {:induction false} TermsNonEmpty(exception: Option<Exception>, log: Option<ErrorLog>)
    ensures AllNonEmpty(Terms(exception, log))
  {
    forall part: Part
      ensures AllNonEmpty(ExceptionTerms(exception, part))
    {
      if exception.Some? {
        TreeTermsNonEmpty(exception.value, part);
      }
    }
    var head := ExceptionTerms(exception, TypePart) + Term(ParamMessage(log));
    AllNonEmptyAppend(ExceptionTerms(exception, TypePart), Term(ParamMessage(log)));
    if log.Some? {
      StacktraceTermsNonEmpty(log.value.stacktrace);
    }
    var exceptionFrames := ExceptionTerms(exception, FramesPart);
    var frames := if exceptionFrames != [] || log.None? then exceptionFrames
                  else StacktraceTerms(log.value.stacktrace);
    AllNonEmptyAppend(head, frames);
  }

  lemma AllNonEmptyAppend(a: seq<ByteString>, b: seq<ByteString>)
    requires AllNonEmpty(a) && AllNonEmpty(b)
    ensures AllNonEmpty(a + b)
  {
  }

  /** The grouping key under the identity accumulator: the hex of the selected terms written
      back to back. */
  function GroupingKey(exception: Option<Exception>, log: Option<ErrorLog>): ByteString
  {
    Hex.Encode(Join(Terms(exception, log)))
  }

  /** The key is twice as long as the selected terms together, and decodes to exactly their bytes. */
  lemma {:induction false} GroupingKeyDecodes(exception: Option<Exception>, log: Option<ErrorLog>)
    ensures |GroupingKey(exception, log)| == 2 * |Join(Terms(exception, log))|
    ensures Hex.Decode(GroupingKey(exception, log)) == Some(Join(Terms(exception, log)))
  {
    Hex.DecodeEncode(Join(Terms(exception, log)));
  }

  // ---------------------------------------------------------------------------------------
  // Properties of the selection

  /** Frames concatenate: the terms of a + b are those of a followed by those of b. */
  lemma {:induction false} StacktraceTermsAppend(a: seq<StacktraceFrame>, b: seq<StacktraceFrame>)
    ensures StacktraceTerms(a + b) == StacktraceTerms(a) + StacktraceTerms(b)
  {
    if a == [] {
      assert a + b == b;
    } else {
      assert (a + b)[1..] == a[1..] + b;
      StacktraceTermsAppend(a[1..], b);
    }
  }

  /** A one-frame stack trace gives that frame's terms. */
  lemma OneFrame(f: StacktraceFrame)
    ensures StacktraceTerms([f]) == FrameTerms(f)
  {
    assert [f][1..] == [];
  }

  /** Marking a frame ExcludeFromGrouping has the same effect as removing it. */
  lemma {:induction false} ExcludingIsRemoving(frames: seq<StacktraceFrame>, i: nat)
    requires i < |frames|
    ensures StacktraceTerms(frames[i := frames[i].(excludeFromGrouping := true)]) ==
            StacktraceTerms(frames[..i] + frames[i + 1..])
  {
    var marked := frames[i := frames[i].(excludeFromGrouping := true)];
    var f := marked[i];
    assert marked == frames[..i] + [f] + frames[i + 1..];
    StacktraceTermsAppend(frames[..i] + [f], frames[i + 1..]);
    StacktraceTermsAppend(frames[..i], [f]);
    StacktraceTermsAppend(frames[..i], frames[i + 1..]);
  }

  /** The exception a path of cause indices leads to, or None when an index is out of range. */
  function Subtree(e: Exception, path: seq<nat>): Option<Exception>
    decreases |path|
  {
    if path == [] then Some(e)
    else if path[0] < |e.cause| then Subtree(e.cause[path[0]], path[1..])
    else None
  }

  /** The tree with the stack trace of the exception at the end of path replaced by frames. */
  function WithStacktrace(e: Exception, path: seq<nat>, frames: seq<StacktraceFrame>): Exception
    decreases |path|
  {
    if path == [] then e.(stacktrace := frames)
    else if path[0] < |e.cause| then
      e.(cause := e.cause[path[0] := WithStacktrace(e.cause[path[0]], path[1..], frames)])
    else e
  }

  /** Replacing the stack trace of any exception in the tree by frames that give the same terms
      leaves every walk over the tree unchanged. */
  lemma {:induction false} WithStacktraceSameWalk(e: Exception, path: seq<nat>,
                                                  frames: seq<StacktraceFrame>, part: Part)
    requires Subtree(e, path).Some?
    requires StacktraceTerms(frames) == StacktraceTerms(Subtree(e, path).value.stacktrace)
    ensures TreeTerms(WithStacktrace(e, path, frames), part) == TreeTerms(e, part)
    decreases |path|
  {
    var d := WithStacktrace(e, path, frames);
    if path == [] {
      assert OwnTerms(d, part) == OwnTerms(e, part);
      assert d.cause == e.cause;
    } else {
      var k := path[0];
      var c := WithStacktrace(e.cause[k], path[1..], frames);
      WithStacktraceSameWalk(e.cause[k], path[1..], frames, part);
      SameCauseSameWalk(e.cause, k, c, part);
      assert d == e.(cause := e.cause[k := c]);
      assert OwnTerms(d, part) == OwnTerms(e, part);
    }
  }

  /** Replacing one cause by a tree with the same walk leaves the walk over the causes unchanged. */
  lemma {:induction false} SameCauseSameWalk(causes: seq<Exception>, k: nat, c: Exception, part: Part)
    requires k < |causes| && TreeTerms(c, part) == TreeTerms(causes[k], part)
    ensures CauseTerms(causes[k := c], part) == CauseTerms(causes, part)
  {
    assert causes == causes[..k] + [causes[k]] + causes[k + 1..];
    assert causes[k := c] == causes[..k] + [c] + causes[k + 1..];
    CauseTermsSplit(causes[..k], causes[k], causes[k + 1..], part);
    CauseTermsSplit(causes[..k], c, causes[k + 1..], part);
  }

  /** Removing an excluded frame from the stack trace of any exception in the tree, at any depth,
      leaves the key unchanged. */
  lemma {:induction false} ExcludedFrameIrrelevant(e: Exception, log: Option<ErrorLog>, path: seq<nat>, i: nat)
    requires Subtree(e, path).Some?
    requires i < |Subtree(e, path).value.stacktrace|
    requires Subtree(e, path).value.stacktrace[i].excludeFromGrouping
    ensures GroupingKey(Some(WithStacktrace(e, path, Subtree(e, path).value.stacktrace[..i] +
                                                     Subtree(e, path).value.stacktrace[i + 1..])), log) ==
            GroupingKey(Some(e), log)
  {
    var frames := Subtree(e, path).value.stacktrace;
    assert frames[i := frames[i].(excludeFromGrouping := true)] == frames;
    ExcludingIsRemoving(frames, i);
    var d := WithStacktrace(e, path, frames[..i] + frames[i + 1..]);
    forall part: Part
      ensures TreeTerms(d, part) == TreeTerms(e, part)
    {
      WithStacktraceSameWalk(e, path, frames[..i] + frames[i + 1..], part);
    }
    SameWalksSameKey(Some(d), Some(e), log);
  }

  /** Removing an excluded frame from the log's stack trace leaves the key unchanged. */
  lemma {:induction false} ExcludedLogFrameIrrelevant(exception: Option<Exception>, log: ErrorLog, i: nat)
    requires i < |log.stacktrace| && log.stacktrace[i].excludeFromGrouping
    ensures GroupingKey(exception, Some(log.(stacktrace := log.stacktrace[..i] + log.stacktrace[i + 1..]))) ==
            GroupingKey(exception, Some(log))
  {
    var frames := log.stacktrace;
    assert frames[i := frames[i].(excludeFromGrouping := true)] == frames;
    ExcludingIsRemoving(frames, i);
    SameLogWalkSameTerms(exception, log.(stacktrace := frames[..i] + frames[i + 1..]), log);
  }

  /** The terms depend on the log only through its messages and the terms of its stack trace. */
  lemma SameLogWalkSameTerms(exception: Option<Exception>, log1: ErrorLog, log2: ErrorLog)
    requires log1.message == log2.message && log1.paramMessage == log2.paramMessage
    requires StacktraceTerms(log1.stacktrace) == StacktraceTerms(log2.stacktrace)
    ensures Terms(exception, Some(log1)) == Terms(exception, Some(log2))
  {
  }

  /** The key depends on the exception only through its three walks. */
  lemma SameWalksSameKey(x: Option<Exception>, y: Option<Exception>, log: Option<ErrorLog>)
    requires ExceptionTerms(x, TypePart) == ExceptionTerms(y, TypePart)
    requires ExceptionTerms(x, FramesPart) == ExceptionTerms(y, FramesPart)
    requires ExceptionTerms(x, MessagePart) == ExceptionTerms(y, MessagePart)
    ensures GroupingKey(x, log) == GroupingKey(y, log)
  {
    assert Terms(x, log) == Terms(y, log);
  }

  /** Sibling causes concatenate: the walk over a + b is the walk over a, then over b. */
  lemma {:induction false} CauseTermsAppend(a: seq<Exception>, b: seq<Exception>, part: Part)
    ensures CauseTerms(a + b, part) == CauseTerms(a, part) + CauseTerms(b, part)
  {
    if a == [] {
      assert a + b == b;
    } else {
      assert (a + b)[1..] == a[1..] + b;
      CauseTermsAppend(a[1..], b, part);
    }
  }

  /** The walk over causes split around one of them: the causes before it, its subtree, the causes after it. */
  lemma {:induction false} CauseTermsSplit(before: seq<Exception>, c: Exception, after: seq<Exception>, part: Part)
    ensures CauseTerms(before + [c] + after, part) ==
            CauseTerms(before, part) + TreeTerms(c, part) + CauseTerms(after, part)
  {
    CauseTermsAppend(before + [c], after, part);
    CauseTermsAppend(before, [c], part);
    OneCause(c, part);
  }

  /** The walk over a single cause is the walk over its subtree. */
  lemma OneCause(c: Exception, part: Part)
    ensures CauseTerms([c], part) == TreeTerms(c, part)
  {
    assert [c][1..] == [];
    assert CauseTerms([c], part) == TreeTerms(c, part) + [];
  }

  /** The walk over two sibling causes is the first subtree's walk, then the second's. */
  lemma {:induction false} TwoCauses(c1: Exception, c2: Exception, part: Part)
    ensures CauseTerms([c1, c2], part) == TreeTerms(c1, part) + TreeTerms(c2, part)
  {
    assert [c1, c2][1..] == [c2];
    OneCause(c2, part);
  }

  /** Depth-first order: a cause's whole subtree (its own frames, then its nested causes) comes
      after the exception itself and every earlier sibling, and before every later sibling. */
  lemma {:induction false} DepthFirst(e: Exception, before: seq<Exception>, c: Exception, after: seq<Exception>, part: Part)
    requires e.cause == before + [c] + after
    ensures TreeTerms(e, part) ==
            OwnTerms(e, part) + (CauseTerms(before, part) + TreeTerms(c, part) + CauseTerms(after, part))
  {
    CauseTermsSplit(before, c, after, part);
  }

  /** Exception over log: once the exception tree yields frame terms, the log's stack trace and
      message do not matter; only its parameterised message is hashed. */
  lemma ExceptionFramesShadowLog(e: Exception, log1: Option<ErrorLog>, log2: Option<ErrorLog>)
    requires TreeTerms(e, FramesPart) != []
    requires ParamMessage(log1) == ParamMessage(log2)
    ensures Terms(Some(e), log1) == Terms(Some(e), log2)
    ensures Terms(Some(e), log1) ==
            TreeTerms(e, TypePart) + Term(ParamMessage(log1)) + TreeTerms(e, FramesPart)
  {
  }

  /** A frame of the exception itself that is not excluded and names something gives the tree
      frame terms, so the exception messages and the log's frames are not used. */
  lemma {:induction false} ContributingFrameFound(e: Exception, i: nat)
    requires i < |e.stacktrace| && Contributes(e.stacktrace[i])
    ensures TreeTerms(e, FramesPart) != []
  {
    StacktraceTermsContribute(e.stacktrace);
    assert OwnTerms(e, FramesPart) == StacktraceTerms(e.stacktrace);
  }

  /** Frame terms anywhere below a cause are frame terms of the whole tree; with the lemma above,
      one contributing frame at any depth is enough. */
  lemma {:induction false} CauseFramesFound(e: Exception, k: nat)
    requires k < |e.cause| && TreeTerms(e.cause[k], FramesPart) != []
    ensures TreeTerms(e, FramesPart) != []
  {
    CauseTermsFound(e.cause, k, FramesPart);
    assert |TreeTerms(e, FramesPart)| >= |CauseTerms(e.cause, FramesPart)| >= |TreeTerms(e.cause[k], FramesPart)|;
  }

  /** Every subtree's terms are part of the walk over its list of causes, so the list gives at least
      as many terms as any one of its subtrees. */
  lemma CauseTermsFound(causes: seq<Exception>, k: nat, part: Part)
    requires k < |causes|
    ensures |CauseTerms(causes, part)| >= |TreeTerms(causes[k], part)|
  {
    assert causes == causes[..k] + [causes[k]] + causes[k + 1..];
    CauseTermsSplit(causes[..k], causes[k], causes[k + 1..], part);
  }

  /** Without an exception, a log stack trace that yields terms is hashed, and its message is not. */
  lemma LogStacktraceWithoutException(log: ErrorLog)
    requires StacktraceTerms(log.stacktrace) != []
    ensures Terms(None, Some(log)) == Term(log.paramMessage) + StacktraceTerms(log.stacktrace)
  {
  }

  /** With an exception present whose tree gives no frame terms, the log's frame terms are hashed
      after the types and the parameterised message, and no message is hashed. */
  lemma LogFramesReplaceTreeFrames(exception: Option<Exception>, log: ErrorLog)
    requires ExceptionTerms(exception, FramesPart) == []
    requires StacktraceTerms(log.stacktrace) != []
    ensures Terms(exception, Some(log)) ==
            ExceptionTerms(exception, TypePart) + Term(log.paramMessage) + StacktraceTerms(log.stacktrace)
  {
  }

  /** Messages are hashed only when nothing else is: once a type, the parameterised message or a
      frame term is selected, neither the exception messages nor the log's message affect the terms. */
  lemma MessagesOnlyWhenNothingElse(x: Option<Exception>, y: Option<Exception>,
                                    log1: Option<ErrorLog>, log2: Option<ErrorLog>)
    requires ExceptionTerms(x, TypePart) == ExceptionTerms(y, TypePart)
    requires ExceptionTerms(x, FramesPart) == ExceptionTerms(y, FramesPart)
    requires ParamMessage(log1) == ParamMessage(log2)
    requires log1.Some? <==> log2.Some?
    requires log1.Some? && log2.Some? ==> log1.value.stacktrace == log2.value.stacktrace
    requires ExceptionTerms(x, TypePart) != [] || ParamMessage(log1) != [] ||
             ExceptionTerms(x, FramesPart) != [] ||
             (log1.Some? && StacktraceTerms(log1.value.stacktrace) != [])
    ensures Terms(x, log1) == Terms(y, log2)
  {
  }

  /** With no type, no parameterised message and no frame terms anywhere, the exception messages are
      hashed depth-first; the log's message is used only when the exception tree has none. */
  lemma MessageFallback(exception: Option<Exception>, log: Option<ErrorLog>)
    requires ExceptionTerms(exception, TypePart) == [] && ParamMessage(log) == []
    requires ExceptionTerms(exception, FramesPart) == []
    requires log.Some? ==> StacktraceTerms(log.value.stacktrace) == []
    ensures ExceptionTerms(exception, MessagePart) != [] ==>
            Terms(exception, log) == ExceptionTerms(exception, MessagePart)
    ensures ExceptionTerms(exception, MessagePart) == [] && log.Some? ==>
            Terms(exception, log) == Term(log.value.message)
  {
  }

  /** Two errors share a key exactly when their selected terms, written back to back, are the same bytes. */
  lemma {:induction false} SameKeyIffSameBytes(exception1: Option<Exception>, log1: Option<ErrorLog>,
                            exception2: Option<Exception>, log2: Option<ErrorLog>)
    ensures GroupingKey(exception1, log1) == GroupingKey(exception2, log2) <==>
            Join(Terms(exception1, log1)) == Join(Terms(exception2, log2))
  {
    var b1, b2 := Join(Terms(exception1, log1)), Join(Terms(exception2, log2));
    Hex.DecodeEncode(b1);
    Hex.DecodeEncode(b2);
  }

  // ---------------------------------------------------------------------------------------
  // The processor

  /** Writes the terms into the accumulator one after another, with nothing between them. */
  method WriteTerms(hash: FakeHash, terms: seq<ByteString>)
    modifies hash
    ensures hash.buffer == old(hash.buffer) + Join(terms)
  {
    var i := 0;
    while i < |terms|
      invariant 0 <= i <= |terms|
      invariant hash.buffer == old(hash.buffer) + Join(terms[..i])
    {
      JoinSnoc(terms[..i], terms[i]);
      assert terms[..i + 1] == terms[..i] + [terms[i]];
      var _ := hash.Write(terms[i]);
      i := i + 1;
    }
    assert terms[..i] == terms;
  }

  /** Computes one error's key with a fresh identity accumulator: every term is written in order,
      the digest is taken and hex-encoded into the error's grouping key. */
  method ProcessError(e: Error)
    modifies e
    ensures e.groupingKey == GroupingKey(e.exception, e.log)
  {
    var hash := new FakeHash();
    WriteTerms(hash, Terms(e.exception, e.log));
    var digest := hash.Sum([]);
    e.groupingKey := Hex.Encode(digest);
  }

  /** The errors carried by the events of a batch. */
  function BatchErrors(batch: array<APMEvent>): set<Error>
    reads batch
  {
    set i | 0 <= i < batch.Length && batch[i].error != null :: batch[i].error
  }

  /** The error holds the grouping key of its exception and log. */
  ghost predicate HasGroupingKey(e: Error)
    reads e
  {
    e.groupingKey == GroupingKey(e.exception, e.log)
  }

  /** ProcessBatch: sets the grouping key of every error in the batch and of nothing else;
      it never fails. */
  method ProcessBatch(batch: array<APMEvent>) returns (err: Option<ByteString>)
    modifies BatchErrors(batch)
    ensures err == None
    ensures forall i | 0 <= i < batch.Length && batch[i].error != null :: HasGroupingKey(batch[i].error)
  {
    var i := 0;
    while i < batch.Length
      invariant 0 <= i <= batch.Length
      invariant forall j | 0 <= j < i && batch[j].error != null :: HasGroupingKey(batch[j].error)
    {
      var e := batch[i].error;
      if e != null {
        ProcessError(e);
      }
      i := i + 1;
    }
    err := None;
  }
}
