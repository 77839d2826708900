/**
 * The task system calls that decide on and change a task's own state:
 * `exit` records the exit code and marks the task exited, and `brk` moves
 * the program break, growing the heap area of the task's address space
 * when the new break lies past the heap's last page.
 */
module TaskSyscalls {
  import opened Wrappers
  import opened Memory
  import PageNum
  import Errno

  /** The states of a task that `exit` tells apart: exited or not. */
  datatype TaskStatus = Running | Exited

  const I32_MODULUS: int := 0x1_0000_0000
  const I32_MIN: int := -0x8000_0000
  const I32_MAX: int := 0x7FFF_FFFF

  /** Truncation of an integer to 32-bit two's complement, as `as i32` does. */
  function ToI32(x: int): (r: int)
    ensures I32_MIN <= r <= I32_MAX
    ensures (r - x) % I32_MODULUS == 0
  {
    var low := x % I32_MODULUS;
    if low <= I32_MAX then low else low - I32_MODULUS
  }

  /** Values that fit in 32 bits are kept as they are. */
  lemma ToI32Keeps(x: int)
    requires I32_MIN <= x <= I32_MAX
    ensures ToI32(x) == x
  {
    var r := ToI32(x);
    assert (r - x) % I32_MODULUS == 0 && -I32_MODULUS < r - x < I32_MODULUS;
  }

  /** Truncation only looks at the low 32 bits: codes 2^32 apart exit alike. */
  lemma ToI32Periodic(x: int)
    ensures ToI32(x + I32_MODULUS) == ToI32(x)
  {
  }

  /** A task's control block, as far as these calls read and write it. */
  class Task {
    var status: TaskStatus
    var exitCode: int
    /** The program break, an address. */
    var brkPos: nat
    const memorySpace: MemorySpace

    constructor (space: MemorySpace, brk: nat)
      ensures status == Running && exitCode == 0 && brkPos == brk && memorySpace == space
    {
      status := Running;
      exitCode := 0;
      brkPos := brk;
      memorySpace := space;
    }
  }

  /** `exit(code)`: the task is marked exited with the code cut to 32 bits, and the call returns 0. */
  method Exit(task: Task, code: int) returns (r: Errno.SyscallResult)
    requires PageNum.IsIsize(code)
    modifies task
    ensures task.status == Exited && task.exitCode == ToI32(code) && r == Errno.Ok(0)
    ensures task.brkPos == old(task.brkPos)
  {
    task.status := Exited;
    task.exitCode := ToI32(code);
    r := Errno.Ok(0);
  }

  /** The heap area's page range, before or after a call. */
  function HeapRange(space: MemorySpace): VpnRange
    requires space.brkAreaIdx < |space.areas|
    reads space, space.areas[space.brkAreaIdx]
  {
    space.BrkPageRange()
  }

  /**
   * `brk(addr)`. A zero or unchanged address reports the current break; a
   * lower one is refused with -1. An address below the end of the heap's
   * last page only moves the break. Otherwise the heap grows to end at the
   * page holding the address, rounded up, and the break moves there; if
   * the heap cannot grow, the call gives -1 and the break stays.
   */
  method Brk(task: Task, brk: nat, alloc: FrameAllocator) returns (r: Errno.SyscallResult)
    requires task.memorySpace.Valid() && alloc.Valid()
    requires task.memorySpace.brkAreaIdx < |task.memorySpace.areas|
    requires HeapRange(task.memorySpace).WellFormed()
    requires PageNum.IsUsize(brk)
    modifies task, task.memorySpace.areas[task.memorySpace.brkAreaIdx], task.memorySpace.pageTable, alloc
    ensures task.memorySpace.Valid() && alloc.Valid()
    ensures task.status == old(task.status) && task.exitCode == old(task.exitCode)
    ensures var cur := old(task.brkPos);
      var heap := old(HeapRange(task.memorySpace));
      var space := task.memorySpace;
      var area := space.areas[space.brkAreaIdx];
      var same := HeapRange(space) == heap && space.pageTable.entries == old(space.pageTable.entries)
        && area.allocatedFrames == old(area.allocatedFrames);
      if brk == 0 || brk == cur then r == Errno.Ok(PageNum.ToIsize(cur)) && task.brkPos == cur && same
      else if brk < cur then r == Errno.Raw(-1) && task.brkPos == cur && same
      else if brk < PageNum.StartAddr(heap.end) then r == Errno.Ok(PageNum.ToIsize(brk)) && task.brkPos == brk && same
      else if PageNum.FromAddrCeil(brk) < heap.start then r == Errno.Raw(-1) && task.brkPos == cur && same
      else
        && r == Errno.Ok(PageNum.ToIsize(brk)) && task.brkPos == brk
        && HeapRange(space) == VpnRange(heap.start, PageNum.FromAddrCeil(brk))
        && brk <= PageNum.StartAddr(HeapRange(space).end)
        && (forall v :: v in space.pageTable.entries <==> v in old(space.pageTable.entries) || heap.end <= v < HeapRange(space).end)
        && (forall v :: v in area.allocatedFrames <==> v in old(area.allocatedFrames) || heap.end <= v < HeapRange(space).end)
        && (forall v :: heap.end <= v < HeapRange(space).end ==>
              space.pageTable.entries[v] == Pte(area.allocatedFrames[v], area.permissions)
              && area.allocatedFrames[v] !in old(alloc.used))
        && (forall v :: v in old(space.pageTable.entries) && !(heap.end <= v < HeapRange(space).end) ==>
              space.pageTable.entries[v] == old(space.pageTable.entries)[v])
        && (forall v :: v in old(area.allocatedFrames) && !(heap.end <= v < HeapRange(space).end) ==>
              area.allocatedFrames[v] == old(area.allocatedFrames)[v])
  {
    var current := task.brkPos;
    if brk == 0 || brk == current {
      return Errno.Ok(PageNum.ToIsize(current));
    }
    if brk < current {
      return Errno.Raw(-1);
    }
    var space := task.memorySpace;
    var heap := space.BrkPageRange();
    var heapEnd := PageNum.StartAddr(heap.end);
    if brk < heapEnd {
      task.brkPos := brk;
      return Errno.Ok(PageNum.ToIsize(brk));
    }
    var vpn := PageNum.FromAddrCeil(brk);
    PageNum.PageOrder(vpn, heap.end);
    var grown := space.IncreaseBrk(vpn, alloc);
    match grown {
      case Ok(_) =>
        task.brkPos := brk;
        r := Errno.Ok(PageNum.ToIsize(brk));
      case Err(_) =>
        r := Errno.Raw(-1);
    }
  }
}
