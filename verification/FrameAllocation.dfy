/** Physical frame allocation while the page tables are being built. */
module FrameAllocation {
  import opened Outcomes
  import opened Arch

  /** How an allocator decides.  `Linear` hands out consecutive frames; `Scripted` stands for every
      other implementer that keeps the contract: it gives a list of answers fixed in advance, `None`
      meaning failure, and fails for good once the list is used up. */
  datatype Backend =
    | Linear(next: PhysAddr)
    | Scripted(answers: seq<Option<PhysAddr>>)

  /** The bases of the frames in [low, high). */
  ghost function FramesBetween(low: nat, high: nat): set<PhysAddr> {
    set f: PhysAddr | low <= f < high && Aligned(f)
  }

  /** A script never gives a misaligned frame, nor one frame twice, nor one of `used`. */
  ghost predicate GoodScript(answers: seq<Option<PhysAddr>>, used: set<PhysAddr>) {
    && (forall i :: 0 <= i < |answers| && answers[i].Some? ==>
          Aligned(answers[i].value) && answers[i].value !in used)
    && (forall i, j :: 0 <= i < j < |answers| && answers[i].Some? && answers[j].Some? ==>
          answers[i].value != answers[j].value)
  }

  /** The next `frames` requests for one frame will all be granted. */
  predicate CanGrant(backend: Backend, frames: nat) {
    match backend
    case Linear(next) => next + Bytes(frames) < PHYS_LIMIT
    case Scripted(answers) => frames <= |answers| && forall i | 0 <= i < frames :: answers[i].Some?
  }

  /** The allocator after one more request. */
  function Asked(backend: Backend): Backend {
    match backend
    case Linear(next) => if next + PAGE_SIZE < PHYS_LIMIT then Backend.Linear(next + PAGE_SIZE) else backend
    case Scripted(answers) => Backend.Scripted(if answers == [] then [] else answers[1..])
  }

  /** Granting n + 1 frames is granting one and then n more. */
  lemma CanGrantNext(backend: Backend, frames: nat)
    ensures CanGrant(backend, frames + 1) <==> CanGrant(backend, 1) && CanGrant(Asked(backend), frames)
  {
    match backend
    case Linear(next) =>
    case Scripted(answers) =>
      if CanGrant(backend, 1) && CanGrant(Asked(backend), frames) {
        forall i | 0 <= i < frames + 1
          ensures answers[i].Some?
        {
          assert i > 0 ==> answers[i] == answers[1..][i - 1];
        }
      }
  }

  class FrameAllocator {
    var backend: Backend
    ghost const base: PhysAddr
    ghost var issued: set<PhysAddr>

    ghost predicate Valid()
      reads this
    {
      match backend
      case Linear(next) => Aligned(base) && Aligned(next) && base <= next && issued == FramesBetween(base, next)
      case Scripted(answers) => GoodScript(answers, issued)
    }

    constructor Linear(start: PhysAddr)
      requires Aligned(start)
      ensures Valid() && issued == {} && base == start && backend == Backend.Linear(start)
    {
      backend := Backend.Linear(start);
      base := start;
      issued := {};
    }

    constructor Scripted(answers: seq<Option<PhysAddr>>, ghost used: set<PhysAddr>)
      requires GoodScript(answers, used)
      ensures Valid() && issued == used && backend == Backend.Scripted(answers)
    {
      backend := Backend.Scripted(answers);
      base := 0;
      issued := used;
    }

    /** The allocator contract: a frame that is granted is aligned and was never granted before. */
    method Alloc() returns (r: Outcome<PhysAddr, MemoryError>)
      requires Valid()
      modifies this
      ensures Valid()
      ensures r.Ok? ==> Aligned(r.value) && r.value !in old(issued) && issued == old(issued) + {r.value}
      ensures !r.Ok? ==> issued == old(issued)
      ensures backend == Asked(old(backend))
      ensures r.Ok? <==> CanGrant(old(backend), 1)
      ensures r.Panic? ==> backend.Linear?
      ensures r.Err? ==> backend.Scripted? && r.error == AllocationError
      ensures r.Ok? ==>
        r.value == match old(backend) case Linear(next) => next case Scripted(answers) => answers[0].value
      ensures old(backend).Linear? ==>
        && (r.Ok? <==> old(backend).next + 4096 < 0x10_0000_0000_0000)
        && (r.Ok? ==> backend.Linear? && backend.next == r.value + 4096)
    {
      match backend
      case Linear(next) =>
        if next + PAGE_SIZE >= PHYS_LIMIT {
          return Panic;
        }
        backend := Backend.Linear(next + PAGE_SIZE);
        issued := issued + {next};
        return Ok(next);
      case Scripted(answers) =>
        if answers == [] {
          return Err(AllocationError);
        }
        backend := Backend.Scripted(answers[1..]);
        if answers[0].None? {
          return Err(AllocationError);
        }
        issued := issued + {answers[0].value};
        return Ok(answers[0].value);
    }

    /** A block of consecutive frames, none granted before. */
    method AllocContiguous(pages: nat) returns (r: Outcome<PhysAddr, MemoryError>)
      requires Valid() && backend.Linear?
      modifies this
      ensures Valid() && backend.Linear?
      ensures r.Panic? <==> !CanGrant(old(backend), pages)
      ensures r.Panic? <==> old(backend.next) + 4096 * pages >= 0x10_0000_0000_0000
      ensures r.Ok? ==>
        && r.value == old(backend.next)
        && backend.next == r.value + 4096 * pages
        && FramesBetween(r.value, r.value + Bytes(pages)) !! old(issued)
        && issued == old(issued) + FramesBetween(r.value, r.value + Bytes(pages))
      ensures r.Panic? ==> issued == old(issued) && backend == old(backend)
      ensures !r.Err?
    {
      var start := backend.next;
      var after := start + Bytes(pages);
      if after >= PHYS_LIMIT {
        return Panic;
      }
      backend := Backend.Linear(after);
      issued := issued + FramesBetween(start, after);
      return Ok(start);
    }
  }
}
