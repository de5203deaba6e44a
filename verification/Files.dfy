/** A file system in which any operation may fail, and a reader that hands out a stream in chunks. */
module Files {
  import opened Wrappers
  import opened Bytes
  import opened SdkErrors

  /** A path: a directory and the last component, which is missing for a root, for `..` and for a
      name that is not text. */
  datatype Path = Path(parent: string, name: Option<string>)

  /** A failing operation gives an error code; a failing write has already written `done` bytes. */
  datatype Fault = Fault(code: int, done: nat)

  const NOT_FOUND := 2
  const BUFFER: nat := 65536

  /** `faults` and `sizes` stand for the environment: which operation fails, and how much a read gives. */
  class FileSystem {
    var files: map<Path, seq<byte>>
    var ops: nat
    const faults: nat -> Option<Fault>
    const sizes: nat -> nat

    constructor (files: map<Path, seq<byte>>, faults: nat -> Option<Fault>, sizes: nat -> nat)
      ensures this.files == files && this.faults == faults && this.sizes == sizes
    {
      this.files := files;
      this.faults := faults;
      this.sizes := sizes;
      ops := 0;
    }

    ghost predicate NeverFails() {
      forall n :: faults(n).None?
    }

    method Tick() returns (fault: Option<Fault>)
      modifies this`ops
      ensures NeverFails() ==> fault.None?
    {
      fault := faults(ops);
      ops := ops + 1;
    }

    method Create(path: Path) returns (r: Result<(), SdkError>)
      modifies this
      ensures files == if r.Ok? then old(files)[path := []] else old(files)
      ensures NeverFails() ==> r.Ok?
    {
      var fault := Tick();
      if fault.Some? {
        return Err(Io(fault.value.code));
      }
      files := files[path := []];
      return Ok(());
    }

    method Append(path: Path, chunk: seq<byte>) returns (r: Result<(), SdkError>)
      requires path in files
      modifies this
      ensures path in files && files - {path} == old(files) - {path}
      ensures r.Ok? ==> files[path] == old(files)[path] + chunk
      ensures r.Err? ==> exists done: nat :: done <= |chunk| && files[path] == old(files)[path] + chunk[..done]
      ensures NeverFails() ==> r.Ok?
    {
      var fault := Tick();
      if fault.Some? {
        var done := if fault.value.done < |chunk| then fault.value.done else |chunk|;
        files := files[path := files[path] + chunk[..done]];
        assert files[path] == old(files)[path] + chunk[..done];
        return Err(Io(fault.value.code));
      }
      files := files[path := files[path] + chunk];
      return Ok(());
    }

    method Flush() returns (r: Result<(), SdkError>)
      modifies this`ops
      ensures NeverFails() ==> r.Ok?
    {
      var fault := Tick();
      return if fault.Some? then Err(Io(fault.value.code)) else Ok(());
    }

    method Open(path: Path) returns (r: Result<(), SdkError>)
      modifies this`ops
      ensures r.Ok? ==> path in files
      ensures NeverFails() && path in files ==> r.Ok?
    {
      var fault := Tick();
      if fault.Some? {
        return Err(Io(fault.value.code));
      }
      return if path in files then Ok(()) else Err(Io(NOT_FOUND));
    }

    /** Gives some of what is left, and nothing only at the end. */
    method Read(path: Path, offset: nat) returns (r: Result<seq<byte>, SdkError>)
      requires path in files && offset <= |files[path]|
      modifies this`ops
      ensures r.Ok? ==> r.value <= files[path][offset..] && (r.value == [] <==> offset == |files[path]|)
      ensures NeverFails() ==> r.Ok?
    {
      var left := files[path][offset..];
      var most := 1 + sizes(ops) % BUFFER;
      var fault := Tick();
      if fault.Some? {
        return Err(Io(fault.value.code));
      }
      return Ok(if |left| < most then left else left[..most]);
    }

    /** Atomic: the file is at one name or at the other. */
    method Rename(source: Path, target: Path) returns (r: Result<(), SdkError>)
      requires source in files
      modifies this
      ensures files == if r.Ok? then (old(files) - {source})[target := old(files)[source]] else old(files)
      ensures NeverFails() ==> r.Ok?
    {
      var fault := Tick();
      if fault.Some? {
        return Err(Io(fault.value.code));
      }
      files := (files - {source})[target := files[source]];
      return Ok(());
    }

    method Remove(path: Path) returns (r: Result<(), SdkError>)
      modifies this
      ensures files == if r.Ok? then old(files) - {path} else old(files)
      ensures r.Ok? ==> path in old(files)
      ensures NeverFails() ==> (r.Ok? <==> path in old(files))
    {
      var fault := Tick();
      if fault.Some? {
        return Err(Io(fault.value.code));
      }
      if path !in files {
        return Err(Io(NOT_FOUND));
      }
      files := files - {path};
      return Ok(());
    }
  }

  type Chunk = Result<seq<byte>, SdkError>

  /** A reader, as the list of answers it will give; after them it is at its end. */
  class Reader {
    var replies: seq<Chunk>

    constructor (replies: seq<Chunk>)
      ensures this.replies == replies
    {
      this.replies := replies;
    }

    method Read() returns (reply: Chunk)
      modifies this
      ensures if old(replies) == [] then reply == Ok([]) && replies == []
              else reply == old(replies)[0] && replies == old(replies)[1..]
    {
      if replies == [] {
        return Ok([]);
      }
      reply := replies[0];
      replies := replies[1..];
    }
  }

  /** The stream that a reader delivers: its chunks joined, up to the first empty one, unless a read
      fails before that. */
  function Streamed(replies: seq<Chunk>): Chunk {
    if replies == [] || replies[0] == Ok([]) then Ok([])
    else
      var chunk :- replies[0];
      var rest :- Streamed(replies[1..]);
      Ok(chunk + rest)
  }
}
