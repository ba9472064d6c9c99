/** Atomic writes (src/atomic_file.rs): a temporary file beside the target, renamed over it. */
module AtomicFile {
  import opened Options

  type Bytes = seq<int>

  datatype File = File(bytes: Bytes, mtimeNs: int)

  /** A directory: its files by name. */
  type Files = map<string, File>

  datatype Fault =
    | NoFault
    | FailCreate
    | FailWrite(written: nat)
    | FailSync
    | FailRename(cleaned: bool)
    | CrashBeforeCreate
    | CrashWhileWriting(written: nat)
    | CrashBeforeRename
    | CrashAfterRename

  datatype Outcome = Written | Failed | Crashed

  // ----- the steps -----

  /** At most `n` bytes of `contents`. */
  function Part(contents: Bytes, n: nat): Bytes {
    if n <= |contents| then contents[..n] else contents
  }

  function Rename(files: Files, tmp: string, target: string): Files {
    if tmp in files then files[target := files[tmp]] - {tmp} else files
  }

  // ----- what a write comes to -----

  function OutcomeOf(fault: Fault): Outcome {
    if fault == NoFault then Written
    else if fault.FailCreate? || fault.FailWrite? || fault.FailSync? || fault.FailRename? then Failed
    else Crashed
  }

  /** The directory after a write that meets `fault`. */
  function AfterWrite(files: Files, target: string, tmp: string, contents: Bytes, mtimeNs: int, fault: Fault): Files {
    match fault
    case FailCreate => files
    case CrashBeforeCreate => files
    case FailWrite(n) => files[tmp := File(Part(contents, n), mtimeNs)]
    case CrashWhileWriting(n) => files[tmp := File(Part(contents, n), mtimeNs)]
    case FailSync => files[tmp := File(contents, mtimeNs)]
    case CrashBeforeRename => files[tmp := File(contents, mtimeNs)]
    case FailRename(cleaned) => if cleaned then files - {tmp} else files[tmp := File(contents, mtimeNs)]
    case NoFault => files[target := File(contents, mtimeNs)] - {tmp}
    case CrashAfterRename => files[target := File(contents, mtimeNs)] - {tmp}
  }

  /** The directory as the operating system keeps it. */
  class Directory {
    var files: Files

    constructor (files: Files)
      ensures this.files == files
    {
      this.files := files;
    }

    /** Create, fill and sync the temporary file, as far as the fault lets it. */
    method WriteTemporary(tmp: string, contents: Bytes, mtimeNs: int, fault: Fault) returns (stopped: Option<Outcome>)
      modifies this
      ensures stopped.None? <==> fault == NoFault || fault.FailRename? || fault == CrashAfterRename
      ensures stopped.Some? ==> stopped.value == OutcomeOf(fault)
      ensures stopped.Some? ==> forall target :: files == AfterWrite(old(files), target, tmp, contents, mtimeNs, fault)
      ensures stopped.None? ==> files == old(files)[tmp := File(contents, mtimeNs)]
    {
      if fault == CrashBeforeCreate {
        return Some(Crashed);
      }
      if fault == FailCreate {
        return Some(Failed);
      }
      files := files[tmp := File([], mtimeNs)];
      if fault.FailWrite? || fault.CrashWhileWriting? {
        files := files[tmp := File(Part(contents, fault.written), mtimeNs)];
        return Some(if fault.FailWrite? then Failed else Crashed);
      }
      files := files[tmp := File(contents, mtimeNs)];
      if fault == FailSync {
        return Some(Failed);
      }
      if fault == CrashBeforeRename {
        return Some(Crashed);
      }
      stopped := None;
    }

    /** `atomic_write`, with a failure or a crash at any of its steps. */
    method AtomicWrite(target: string, tmp: string, contents: Bytes, mtimeNs: int, fault: Fault) returns (r: Outcome)
      requires tmp != target
      modifies this
      ensures r == OutcomeOf(fault)
      ensures files == AfterWrite(old(files), target, tmp, contents, mtimeNs, fault)
    {
      ghost var before := files;
      var stopped := WriteTemporary(tmp, contents, mtimeNs, fault);
      if stopped.Some? {
        return stopped.value;
      }
      if fault.FailRename? {
        if fault.cleaned {
          files := files - {tmp};
          assert files == before - {tmp};
        }
        return Failed;
      }
      files := Rename(files, tmp, target);
      assert files == before[target := File(contents, mtimeNs)] - {tmp};
      r := if fault == CrashAfterRename then Crashed else Written;
    }
  }

  /** Wherever the write stops, the target is the old file or the whole new one: the new one
      when the write succeeds, the old one when it reports an error. No third name changes. */
  lemma TargetIsOldOrNew(files: Files, target: string, tmp: string, contents: Bytes, mtimeNs: int, fault: Fault)
    requires tmp != target
    ensures var now := AfterWrite(files, target, tmp, contents, mtimeNs, fault);
            && (target in now <==> target in files || fault == NoFault || fault == CrashAfterRename)
            && (target in now ==>
                  now[target] == File(contents, mtimeNs) || (target in files && now[target] == files[target]))
            && (OutcomeOf(fault) == Written ==> now[target] == File(contents, mtimeNs) && tmp !in now)
            && (OutcomeOf(fault) == Failed && target in files ==> now[target] == files[target])
            && (OutcomeOf(fault) == Failed && !fault.FailCreate? ==>
                  (tmp in now <==> !(fault.FailRename? && fault.cleaned)))
            && forall n :: n != target && n != tmp ==> (n in now <==> n in files) && (n in now ==> now[n] == files[n])
  {
  }
}
