/** The event vocabulary shared by the recorder, the replayer and the trace archive. */
module Trace {
  import opened Words

  datatype MemoryWrite = MemoryWrite(gpa: u64, data: seq<byte>)

  datatype EventType =
    | Syscall(rax: u64, memoryWrites: seq<MemoryWrite>)
    | Rdtsc(tscRax: u64, tscRdx: u64)
    | Cpuid(eax: u32, ebx: u32, ecx: u32, edx: u32)
    | ContextSwitch(nextThreadId: u32)

  /** `instructionCount` holds whatever ordinal the recorder wrote; nothing reads it back. */
  datatype TraceEvent = TraceEvent(instructionCount: u64, event: EventType)
}
