/** Scheduling events as the recorder delivers them (src/format/event.rs). */
module Events {
  import opened Collections

  type u8 = x: int | 0 <= x < 0x100
  type u16 = x: int | 0 <= x < 0x1_0000
  type u32 = x: int | 0 <= x < 0x1_0000_0000
  type u64 = x: int | 0 <= x < 0x1_0000_0000_0000_0000

  datatype EventType = Switch | Wakeup | WakeupNew | Exit | FutexWait | IoIssue | IoComplete

  function FromU8(v: u8): Option<EventType> {
    match v
    case 1 => Some(Switch)
    case 2 => Some(Wakeup)
    case 3 => Some(WakeupNew)
    case 4 => Some(Exit)
    case 5 => Some(FutexWait)
    case 6 => Some(IoIssue)
    case 7 => Some(IoComplete)
    case _ => None
  }

  datatype WperfEvent = WperfEvent(
    timestampNs: u64,
    pid: u32,
    tid: u32,
    prevTid: u32,
    nextTid: u32,
    prevPid: u32,
    nextPid: u32,
    cpu: u16,
    eventType: u8,
    prevState: u8,
    flags: u32)
  {
    function Kind(): Option<EventType> {
      FromU8(eventType)
    }

    /** The 64-bit sector travels in the two thread-id fields. */
    function IoSector(): u64 {
      nextTid * 0x1_0000_0000 + prevTid
    }

    function IoDev(): u32 {
      prevPid
    }

    function IoNrSector(): u32 {
      nextPid
    }

    function FutexOp(): u32 {
      flags
    }
  }
}
