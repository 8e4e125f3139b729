/**
 * The runtime's call-stack tracking for error reports.
 *
 * Generated code pushes a five-word frame at routine entry and pops it at
 * exit; the runtime keeps a fixed stack of 256 frames per thread.  A
 * capture copies up to 10 of the most recent frames, newest first, into a
 * fixed-size trace record, and an error record is a message handle, a
 * captured trace and a source position.  The symbol tables the generated
 * code registers map ids to names.
 *
 * The thread-local stack is one `CallStack` object: the model has a
 * single thread.  The stack-overflow abort of a push is reported as a
 * returned flag with the state left as it was.
 */
module StackTrace {

  import opened Wrappers

  const RuntimeStackMax: int := 256
  const TraceMaxFrames: int := 10

  type UInt32 = x: int | 0 <= x < 0x1_0000_0000
  /** A pointer value, such as the address of a message. */
  type UAddr = x: int | 0 <= x < 0x1_0000_0000_0000_0000

  /** rf_StackFrame */
  datatype StackFrame = StackFrame(
    fileId: UInt32, routineId: UInt32, typeId: UInt32, lineNo: UInt32, columnNo: UInt32)

  /** A frame whose bytes are all zero. */
  const ZeroFrame := StackFrame(0, 0, 0, 0, 0)

  // ---------------------------------------------------------------------------
  // The runtime stack as a value
  // ---------------------------------------------------------------------------

  /** The 256 slots of the runtime stack and its depth. */
  datatype StackState = StackState(slots: seq<StackFrame>, depth: int)

  predicate WellFormed(s: StackState) {
    |s.slots| == RuntimeStackMax && 0 <= s.depth <= RuntimeStackMax
  }

  /** The frames in use, oldest first. */
  function Contents(s: StackState): seq<StackFrame>
    requires WellFormed(s)
  {
    s.slots[..s.depth]
  }

  /** A push below the limit: the frame goes in slot `depth`, which grows by one. */
  function Pushed(s: StackState, f: StackFrame): (t: StackState)
    requires WellFormed(s) && s.depth < RuntimeStackMax
    ensures WellFormed(t)
    ensures Contents(t) == Contents(s) + [f]
    ensures forall i :: 0 <= i < RuntimeStackMax && i != s.depth ==> t.slots[i] == s.slots[i]
  {
    StackState(s.slots[s.depth := f], s.depth + 1)
  }

  /** A pop: one frame fewer, none below zero; the slots are left as they are. */
  function Popped(s: StackState): (t: StackState)
    requires WellFormed(s)
    ensures WellFormed(t) && t.slots == s.slots
    ensures s.depth > 0 ==> Contents(t) + [s.slots[s.depth - 1]] == Contents(s)
    ensures s.depth == 0 ==> t == s
  {
    StackState(s.slots, if s.depth > 0 then s.depth - 1 else 0)
  }

  /** A push followed by a pop gives back the depth and the frames in use. */
  lemma PopUndoesPush(s: StackState, f: StackFrame)
    requires WellFormed(s) && s.depth < RuntimeStackMax
    ensures Popped(Pushed(s, f)).depth == s.depth
    ensures Contents(Popped(Pushed(s, f))) == Contents(s)
  {
    assert Contents(Popped(Pushed(s, f))) == Contents(Pushed(s, f))[..s.depth];
  }

  /** One push keeps every frame below the old depth where it was. */
  lemma PushKeepsOlderFrames(s: StackState, f: StackFrame, i: int)
    requires WellFormed(s) && s.depth < RuntimeStackMax && 0 <= i < s.depth
    ensures Contents(Pushed(s, f))[i] == Contents(s)[i]
  {
  }

  // ---------------------------------------------------------------------------
  // Capture as a value
  // ---------------------------------------------------------------------------

  function Reverse(q: seq<StackFrame>): (r: seq<StackFrame>)
    ensures |r| == |q|
  {
    if |q| == 0 then [] else Reverse(q[1..]) + [q[0]]
  }

  lemma {:induction false} ReverseIndex(q: seq<StackFrame>, i: int)
    requires 0 <= i < |q|
    ensures Reverse(q)[i] == q[|q| - 1 - i]
    decreases |q|
  {
    if i < |q| - 1 {
      ReverseIndex(q[1..], i);
    }
  }

  function Zeros(n: nat): (z: seq<StackFrame>)
    ensures |z| == n && forall i :: 0 <= i < n ==> z[i] == ZeroFrame
  {
    seq(n, _ => ZeroFrame)
  }

  /** How many frames a capture copies: the depth, at most 10. */
  function CaptureCount(depth: int): (n: int)
    ensures n <= depth && n <= TraceMaxFrames
    ensures n == depth || n == TraceMaxFrames
    ensures 0 <= depth ==> 0 <= n
  {
    if depth > TraceMaxFrames then TraceMaxFrames else depth
  }

  /** The trace frames a capture yields: the top frames, newest first, then zeros. */
  function Captured(s: StackState): (frames: seq<StackFrame>)
    requires WellFormed(s)
    ensures |frames| == TraceMaxFrames
  {
    var n := CaptureCount(s.depth);
    Reverse(s.slots[s.depth - n .. s.depth]) + Zeros(TraceMaxFrames - n)
  }

  /** Captured frame i is stack slot depth − 1 − i; the rest are zero frames. */
  lemma CapturedFrame(s: StackState, i: int)
    requires WellFormed(s) && 0 <= i < TraceMaxFrames
    ensures i < CaptureCount(s.depth) ==> Captured(s)[i] == s.slots[s.depth - 1 - i]
    ensures i >= CaptureCount(s.depth) ==> Captured(s)[i] == ZeroFrame
  {
    if i < CaptureCount(s.depth) {
      CapturedCopied(s, i);
    } else {
      CapturedZeroed(s, i);
    }
  }

  lemma CapturedCopied(s: StackState, i: int)
    requires WellFormed(s) && 0 <= i < CaptureCount(s.depth)
    ensures Captured(s)[i] == s.slots[s.depth - 1 - i]
  {
    var n := CaptureCount(s.depth);
    var top := s.slots[s.depth - n .. s.depth];
    ReverseIndex(top, i);
    assert Captured(s)[i] == Reverse(top)[i];
  }

  lemma CapturedZeroed(s: StackState, i: int)
    requires WellFormed(s) && CaptureCount(s.depth) <= i < TraceMaxFrames
    ensures Captured(s)[i] == ZeroFrame
  {
    var n := CaptureCount(s.depth);
    assert Captured(s)[i] == Zeros(TraceMaxFrames - n)[i - n];
  }

  /** After a push, a capture starts with the pushed frame and then the older trace. */
  lemma CaptureAfterPush(s: StackState, f: StackFrame)
    requires WellFormed(s) && s.depth < RuntimeStackMax
    ensures Captured(Pushed(s, f))[0] == f
    ensures forall i :: 0 < i < CaptureCount(s.depth + 1) ==> Captured(Pushed(s, f))[i] == Captured(s)[i - 1]
  {
    CapturedFrame(Pushed(s, f), 0);
    forall i | 0 < i < CaptureCount(s.depth + 1)
      ensures Captured(Pushed(s, f))[i] == Captured(s)[i - 1]
    {
      CapturedFrame(Pushed(s, f), i);
      CapturedFrame(s, i - 1);
    }
  }

  /** An empty stack captures ten zero frames. */
  lemma CaptureOfEmpty(s: StackState)
    requires WellFormed(s) && s.depth == 0
    ensures Captured(s) == Zeros(TraceMaxFrames)
  {
  }

  // ---------------------------------------------------------------------------
  // Records filled in by the runtime
  // ---------------------------------------------------------------------------

  /** rf_StackTrace: ten frame slots and the number in use. */
  class TraceRecord {
    const frames: array<StackFrame>
    var depth: UInt32

    predicate Valid()
      reads this
    {
      frames.Length == TraceMaxFrames
    }

    constructor ()
      ensures Valid() && fresh(frames) && depth == 0
    {
      frames := new StackFrame[TraceMaxFrames](_ => ZeroFrame);
      depth := 0;
    }
  }

  /** rf_Error: the message pointer, a captured trace and the position of the error. */
  class ErrorRecord {
    var messagePtr: UAddr
    const stackTrace: TraceRecord
    var fileId: UInt32
    var routineId: UInt32
    var lineNo: UInt32
    var columnNo: UInt32

    predicate Valid()
      reads this, stackTrace
    {
      stackTrace.Valid()
    }

    constructor ()
      ensures Valid() && fresh(stackTrace) && fresh(stackTrace.frames)
    {
      messagePtr, fileId, routineId, lineNo, columnNo := 0, 0, 0, 0, 0;
      stackTrace := new TraceRecord();
    }
  }

  // ---------------------------------------------------------------------------
  // The runtime stack
  // ---------------------------------------------------------------------------

  /** rf_runtime_stack and rf_runtime_stack_depth of one thread. */
  class CallStack {
    const frames: array<StackFrame>
    var depth: UInt32

    predicate Valid()
      reads this
    {
      frames.Length == RuntimeStackMax && depth <= RuntimeStackMax
    }

    function State(): (s: StackState)
      reads this, frames
      requires Valid()
      ensures WellFormed(s)
    {
      StackState(frames[..], depth)
    }

    /** Static storage: every slot zero, depth 0. */
    constructor ()
      ensures Valid() && fresh(frames) && depth == 0
      ensures forall i :: 0 <= i < RuntimeStackMax ==> frames[i] == ZeroFrame
    {
      frames := new StackFrame[RuntimeStackMax](_ => ZeroFrame);
      depth := 0;
    }

    /**
     * __rf_stack_push.  At depth 256 the runtime reports a stack overflow
     * and exits: `exited` is true and nothing is written.
     */
    method Push(fileId: UInt32, routineId: UInt32, typeId: UInt32, lineNo: UInt32, columnNo: UInt32)
      returns (exited: bool)
      requires Valid()
      modifies this, frames
      ensures Valid()
      ensures exited <==> old(depth) >= RuntimeStackMax
      ensures exited ==> depth == old(depth) && frames[..] == old(frames[..])
      ensures !exited ==>
        State() == Pushed(old(State()), StackFrame(fileId, routineId, typeId, lineNo, columnNo))
    {
      if depth >= RuntimeStackMax {
        return true;
      }
      frames[depth] := StackFrame(fileId, routineId, typeId, lineNo, columnNo);
      depth := depth + 1;
      exited := false;
    }

    /** __rf_stack_pop */
    method Pop()
      requires Valid()
      modifies this
      ensures Valid()
      ensures State() == Popped(old(State()))
    {
      if depth > 0 {
        depth := depth - 1;
      }
    }

    /**
     * __rf_stack_capture: copy the newest frames, most recent first, zero
     * the remaining slots and record how many were copied.  A null record
     * is left alone, and the runtime stack is never written.
     */
    method Capture(out: TraceRecord?)
      requires Valid() && (out != null ==> out.Valid())
      modifies if out == null then {} else {out, out.frames}
      ensures out != null ==> out.depth == CaptureCount(depth) && out.frames[..] == Captured(State())
    {
      if out == null {
        return;
      }
      var framesToCopy: UInt32 := depth;
      if framesToCopy > TraceMaxFrames {
        framesToCopy := TraceMaxFrames;
      }
      var i: UInt32 := 0;
      while i < framesToCopy
        invariant 0 <= i <= framesToCopy
        invariant forall k :: 0 <= k < i ==> out.frames[k] == frames[depth - 1 - k]
      {
        out.frames[i] := frames[depth - 1 - i];
        i := i + 1;
      }
      i := framesToCopy;
      while i < TraceMaxFrames
        invariant framesToCopy <= i <= TraceMaxFrames
        invariant forall k :: 0 <= k < framesToCopy ==> out.frames[k] == frames[depth - 1 - k]
        invariant forall k :: framesToCopy <= k < i ==> out.frames[k] == ZeroFrame
      {
        out.frames[i] := ZeroFrame;
        i := i + 1;
      }
      out.depth := framesToCopy;
      forall k | 0 <= k < TraceMaxFrames
        ensures out.frames[k] == Captured(State())[k]
      {
        CapturedFrame(State(), k);
      }
    }

    /**
     * __rf_create_error: the message pointer, a capture of the current
     * stack and the position; a null record is left alone.
     */
    method CreateError(out: ErrorRecord?, message: UAddr,
                       fileId: UInt32, routineId: UInt32, lineNo: UInt32, columnNo: UInt32)
      requires Valid() && (out != null ==> out.Valid())
      modifies if out == null then {} else {out, out.stackTrace, out.stackTrace.frames}
      ensures out != null ==>
        out.messagePtr == message && out.fileId == fileId && out.routineId == routineId
        && out.lineNo == lineNo && out.columnNo == columnNo
      ensures out != null ==>
        out.stackTrace.depth == CaptureCount(depth) && out.stackTrace.frames[..] == Captured(State())
    {
      if out == null {
        return;
      }
      out.messagePtr := message;
      Capture(out.stackTrace);
      out.fileId := fileId;
      out.routineId := routineId;
      out.lineNo := lineNo;
      out.columnNo := columnNo;
    }
  }

  // ---------------------------------------------------------------------------
  // Symbol tables
  // ---------------------------------------------------------------------------

  /** A registered table: a possibly null array of names and its count. */
  datatype Table = Table(names: Option<seq<string>>, count: UInt32)

  /** The count never claims more names than the array holds. */
  predicate TableValid(t: Table) {
    t.names.Some? ==> t.count <= |t.names.value|
  }

  /** The name registered for id, or the fallback when the table is null or too short. */
  function Lookup(t: Table, id: UInt32, fallback: string): (name: string)
    requires TableValid(t)
    ensures t.names.Some? && id < t.count ==> name == t.names.value[id]
    ensures t.names.None? || id >= t.count ==> name == fallback
  {
    if t.names.Some? && id < t.count then t.names.value[id] else fallback
  }

  /** A lookup yields a registered name or the fallback, nothing else. */
  lemma LookupIsEntryOrFallback(t: Table, id: UInt32, fallback: string)
    requires TableValid(t)
    ensures Lookup(t, id, fallback) == fallback
      || (t.names.Some? && Lookup(t, id, fallback) in t.names.value[..t.count])
  {
    if t.names.Some? && id < t.count {
      assert t.names.value[..t.count][id] == t.names.value[id];
    }
  }

  const UnknownFile := "<unknown file>"
  const UnknownRoutine := "<unknown routine>"
  const UnknownType := "<unknown type>"

  /** rf_file_table, rf_routine_table, rf_type_table with their counts. */
  class SymbolTables {
    var files: Table
    var routines: Table
    var types: Table

    predicate Valid()
      reads this
    {
      TableValid(files) && TableValid(routines) && TableValid(types)
    }

    /** Static initialisation: null tables, zero counts. */
    constructor ()
      ensures Valid()
      ensures files == Table(None, 0) && routines == Table(None, 0) && types == Table(None, 0)
    {
      files, routines, types := Table(None, 0), Table(None, 0), Table(None, 0);
    }

    /** __rf_init_symbol_tables: each pointer and count as given. */
    method Init(fileTable: Option<seq<string>>, fileCount: UInt32,
                routineTable: Option<seq<string>>, routineCount: UInt32,
                typeTable: Option<seq<string>>, typeCount: UInt32)
      requires TableValid(Table(fileTable, fileCount))
      requires TableValid(Table(routineTable, routineCount))
      requires TableValid(Table(typeTable, typeCount))
      modifies this
      ensures Valid()
      ensures files == Table(fileTable, fileCount)
      ensures routines == Table(routineTable, routineCount)
      ensures types == Table(typeTable, typeCount)
    {
      files := Table(fileTable, fileCount);
      routines := Table(routineTable, routineCount);
      types := Table(typeTable, typeCount);
    }

    /** get_file_name */
    function FileName(id: UInt32): (name: string)
      reads this
      requires Valid()
      ensures files.names.Some? && id < files.count ==> name == files.names.value[id]
      ensures files.names.None? || id >= files.count ==> name == UnknownFile
    {
      Lookup(files, id, UnknownFile)
    }

    /** get_routine_name */
    function RoutineName(id: UInt32): (name: string)
      reads this
      requires Valid()
      ensures routines.names.Some? && id < routines.count ==> name == routines.names.value[id]
      ensures routines.names.None? || id >= routines.count ==> name == UnknownRoutine
    {
      Lookup(routines, id, UnknownRoutine)
    }

    /** get_type_name: type id 0 is a free function, with no type at all. */
    function TypeName(id: UInt32): (name: Option<string>)
      reads this
      requires Valid()
      ensures name.None? <==> id == 0
      ensures id != 0 && types.names.Some? && id < types.count ==> name == Some(types.names.value[id])
      ensures id != 0 && (types.names.None? || id >= types.count) ==> name == Some(UnknownType)
    {
      if id == 0 then None else Some(Lookup(types, id, UnknownType))
    }
  }

  /** Before any tables are registered every lookup falls back. */
  lemma UnregisteredLookupsFallBack(t: SymbolTables, id: UInt32)
    requires t.Valid() && t.files.names.None? && t.routines.names.None? && t.types.names.None?
    ensures t.FileName(id) == UnknownFile && t.RoutineName(id) == UnknownRoutine
    ensures t.TypeName(id) == if id == 0 then None else Some(UnknownType)
  {
  }

  /** Type id 0 means no type even when the table registers a name at index 0. */
  lemma TypeZeroHasNoName(t: SymbolTables)
    requires t.Valid() && t.types.names.Some? && t.types.count > 0
    ensures t.TypeName(0).None?
    ensures Lookup(t.types, 0, UnknownType) == t.types.names.value[0]
  {
  }
}
