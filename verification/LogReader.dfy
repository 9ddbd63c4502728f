/** The log reader, and what it makes of a log cut off anywhere. */
module LogReader {
  import opened Keys
  import opened Coding
  import opened LogFormat

  /** The mutable part of a Reader: file position, unread part of the block, end-of-file flag,
      and the sizes reported as corrupted.  Reading starts at offset zero. */
  datatype ReaderState = ReaderState(filePos: nat, buffer: Bytes, eof: bool, reports: seq<nat>)

  const START := ReaderState(0, [], false, [])

  function Report(s: ReaderState, bytes: nat): ReaderState {
    s.(reports := s.reports + [bytes])
  }

  /** SequentialFile::Read of one block. */
  function Refill(file: Bytes, s: ReaderState): ReaderState
    requires s.filePos <= |file|
  {
    var end := if |file| - s.filePos < BLOCK then |file| else s.filePos + BLOCK;
    s.(filePos := end, buffer := file[s.filePos..end], eof := end - s.filePos < BLOCK)
  }

  /** ReadPhysicalRecord: new state, record type or EOF or BAD, payload. */
  function ReadPhysical(step: CrcStep, checksum: bool, file: Bytes, s: ReaderState): (r: (ReaderState, nat, Bytes))
    requires s.filePos <= |file|
    ensures r.0.filePos <= |file|
    ensures r.1 != EOF ==> |file| - r.0.filePos + |r.0.buffer| < |file| - s.filePos + |s.buffer|
    decreases |s.buffer| < HEADER, !s.eof
  {
    if |s.buffer| < HEADER then
      if !s.eof then
        var s2 := Refill(file, s);
        ReadPhysical(step, checksum, file, s2)
      else (s.(buffer := []), EOF, [])
    else
      var length := s.buffer[4] as int + s.buffer[5] as int * 256;
      var t := s.buffer[6];
      if HEADER + length > |s.buffer| then
        if !s.eof then (Report(s.(buffer := []), |s.buffer|), BAD, [])
        else (s.(buffer := []), EOF, [])
      else if t == 0 && length == 0 then (s.(buffer := []), BAD, [])
      else if checksum && Unmask(DecodeFixed32(s.buffer)) != Extend(step, 0, s.buffer[6..HEADER + length]) then
        (Report(s.(buffer := []), |s.buffer|), BAD, [])
      else (s.(buffer := s.buffer[HEADER + length..]), t, s.buffer[HEADER..HEADER + length])
  }

  /** The loop of ReadRecord: the next logical record, or None at the end of the file. */
  function ReadLoop(step: CrcStep, checksum: bool, file: Bytes, s: ReaderState, scratch: Bytes, fragmented: bool): (r: (ReaderState, Option<Bytes>))
    requires s.filePos <= |file|
    ensures r.0.filePos <= |file|
    ensures r.1.Some? ==> |file| - r.0.filePos + |r.0.buffer| < |file| - s.filePos + |s.buffer|
    decreases |file| - s.filePos + |s.buffer|
  {
    var (s1, t, fragment) := ReadPhysical(step, checksum, file, s);
    if t == FULL then
      (if fragmented && scratch != [] then Report(s1, |scratch|) else s1, Some(fragment))
    else if t == FIRST then
      ReadLoop(step, checksum, file, if fragmented && scratch != [] then Report(s1, |scratch|) else s1, fragment, true)
    else if t == MIDDLE then
      if !fragmented then ReadLoop(step, checksum, file, Report(s1, |fragment|), scratch, false)
      else ReadLoop(step, checksum, file, s1, scratch + fragment, true)
    else if t == LAST then
      if !fragmented then ReadLoop(step, checksum, file, Report(s1, |fragment|), scratch, false)
      else (s1, Some(scratch + fragment))
    else if t == EOF then (s1, None)
    else if t == BAD then
      ReadLoop(step, checksum, file, if fragmented then Report(s1, |scratch|) else s1, if fragmented then [] else scratch, false)
    else
      ReadLoop(step, checksum, file, Report(s1, |fragment| + if fragmented then |scratch| else 0), [], false)
  }

  /** Reading until ReadRecord returns false. */
  function ReadAll(step: CrcStep, checksum: bool, file: Bytes, s: ReaderState): (r: (ReaderState, seq<Bytes>))
    requires s.filePos <= |file|
    decreases |file| - s.filePos + |s.buffer|
  {
    var (s1, record) := ReadLoop(step, checksum, file, s, [], false);
    if record.None? then (s1, []) else
      var (s2, rest) := ReadAll(step, checksum, file, s1);
      (s2, [record.value] + rest)
  }

  /** log::Reader. */
  class Reader {
    const step: CrcStep
    const checksum: bool
    const file: Bytes
    var filePos: nat
    var buffer: Bytes
    var eof: bool
    var reports: seq<nat>

    function State(): ReaderState
      reads this
    {
      ReaderState(filePos, buffer, eof, reports)
    }

    constructor (s: CrcStep, check: bool, contents: Bytes)
      ensures State() == START && file == contents && step == s && checksum == check
    {
      step, checksum, file := s, check, contents;
      filePos, buffer, eof, reports := 0, [], false, [];
    }

    /** Reader::ReadPhysicalRecord. */
    method ReadPhysicalRecord() returns (t: nat, fragment: Bytes)
      requires filePos <= |file|
      modifies this
      ensures (State(), t, fragment) == ReadPhysical(step, checksum, file, old(State()))
    {
      while true
        invariant filePos <= |file|
        invariant ReadPhysical(step, checksum, file, State()) == ReadPhysical(step, checksum, file, old(State()))
        decreases |buffer| < HEADER, !eof
      {
        if |buffer| < HEADER {
          if !eof {
            var end := if |file| - filePos < BLOCK then |file| else filePos + BLOCK;
            buffer := file[filePos..end];
            eof := |buffer| < BLOCK;
            filePos := end;
            continue;
          } else {
            buffer := [];
            return EOF, [];
          }
        }
        var length := buffer[4] as int + buffer[5] as int * 256;
        t := buffer[6];
        if HEADER + length > |buffer| {
          var dropSize := |buffer|;
          buffer := [];
          if !eof {
            reports := reports + [dropSize];
            return BAD, [];
          }
          return EOF, [];
        }
        if t == 0 && length == 0 {
          buffer := [];
          return BAD, [];
        }
        if checksum && Unmask(DecodeFixed32(buffer)) != Extend(step, 0, buffer[6..HEADER + length]) {
          var dropSize := |buffer|;
          buffer := [];
          reports := reports + [dropSize];
          return BAD, [];
        }
        fragment := buffer[HEADER..HEADER + length];
        buffer := buffer[HEADER + length..];
        return;
      }
    }

    /** Reader::ReadRecord. */
    method ReadRecord() returns (record: Option<Bytes>)
      requires filePos <= |file|
      modifies this
      ensures (State(), record) == ReadLoop(step, checksum, file, old(State()), [], false)
      ensures filePos <= |file|
    {
      var scratch: Bytes := [];
      var fragmented := false;
      while true
        invariant filePos <= |file|
        invariant ReadLoop(step, checksum, file, State(), scratch, fragmented) == ReadLoop(step, checksum, file, old(State()), [], false)
        decreases |file| - filePos + |buffer|
      {
        var t, fragment := ReadPhysicalRecord();
        if t == FULL {
          if fragmented && scratch != [] {
            reports := reports + [|scratch|];
          }
          return Some(fragment);
        } else if t == FIRST {
          if fragmented && scratch != [] {
            reports := reports + [|scratch|];
          }
          scratch := fragment;
          fragmented := true;
        } else if t == MIDDLE {
          if !fragmented {
            reports := reports + [|fragment|];
          } else {
            scratch := scratch + fragment;
          }
        } else if t == LAST {
          if !fragmented {
            reports := reports + [|fragment|];
          } else {
            scratch := scratch + fragment;
            return Some(scratch);
          }
        } else if t == EOF {
          return None;
        } else if t == BAD {
          if fragmented {
            reports := reports + [|scratch|];
            fragmented := false;
            scratch := [];
          }
        } else {
          reports := reports + [|fragment| + if fragmented then |scratch| else 0];
          fragmented := false;
          scratch := [];
        }
      }
    }
  }
}
