/**
 src/wasi/fd_table.rs and the descriptor operations of src/wasi/adapter.rs. Machine widths are
 explicit: descriptors are 32-bit and positions 64-bit, and additions wrap.
 */
module WasiFds {
  import opened Prelude

  const U32 := 0x1_0000_0000

  const U64 := 0x1_0000_0000_0000_0000

  const I64_MIN := -0x8000_0000_0000_0000

  const I64_MAX := 0x7FFF_FFFF_FFFF_FFFF

  type Fd = nat

  type Bytes = seq<bv8>

  datatype WasiError = BadFd | PermissionDenied | IsDirectory | InvalidArgument | NotSupported | IoError | PathError

  datatype Descriptor = Descriptor(inode: int, path: string, canRead: bool, canWrite: bool, position: nat,
                                   isDirectory: bool)

  datatype Table = Table(fds: map<Fd, Descriptor>, nextFd: Fd)

  const EMPTY := Table(map[], 3)

  ghost predicate Valid(t: Table) {
    && 0 <= t.nextFd < U32
    && forall fd | fd in t.fds :: fd < U32 && t.fds[fd].position < U64
  }

  // ---------- the table ----------

  function Allocate(t: Table, d: Descriptor): (Table, Fd) {
    (Table(t.fds[t.nextFd := d], (t.nextFd + 1) % U32), t.nextFd)
  }

  function Close(t: Table, fd: Fd): (Table, Result<(), WasiError>) {
    if fd in t.fds then (t.(fds := t.fds - {fd}), Ok(())) else (t, Err(BadFd))
  }

  function SeekTo(position: nat, offset: int, whence: nat): Result<nat, WasiError> {
    match whence
    case 0 => if offset < 0 then Err(InvalidArgument) else Ok(offset)
    case 1 =>
      if offset < 0 then if -offset > position then Err(InvalidArgument) else Ok(position + offset)
      else Ok((position + offset) % U64)
    case 2 => Err(NotSupported)
    case _ => Err(InvalidArgument)
  }

  function Seek(t: Table, fd: Fd, offset: int, whence: nat): (Table, Result<nat, WasiError>) {
    if fd !in t.fds then (t, Err(BadFd))
    else
      match SeekTo(t.fds[fd].position, offset, whence)
      case Err(e) => (t, Err(e))
      case Ok(p) => (t.(fds := t.fds[fd := t.fds[fd].(position := p)]), Ok(p))
  }

  /** The bytes a read at `position` with a buffer of `size` returns. */
  function Slice(data: Bytes, position: nat, size: nat): Bytes {
    if position >= |data| then []
    else if position + size < |data| then data[position..position + size] else data[position..]
  }

  /** A read; `content` is what the file system returns for the descriptor's path at that moment. */
  function Read(t: Table, fd: Fd, content: Result<Bytes, WasiError>, size: nat): (Table, Result<Bytes, WasiError>) {
    if fd !in t.fds then (t, Err(BadFd))
    else
      var d := t.fds[fd];
      if !d.canRead then (t, Err(PermissionDenied))
      else if d.isDirectory then (t, Err(IsDirectory))
      else if content.Err? then (t, Err(IoError))
      else
        var slice := Slice(content.value, d.position, size);
        (t.(fds := t.fds[fd := d.(position := d.position + |slice|)]), Ok(slice))
  }

  // ---------- runs ----------

  datatype Op =
    | DoOpen(d: Descriptor)
    | DoRead(fd: Fd, size: nat)
    | DoSeek(fd: Fd, offset: int, whence: nat)
    | DoClose(fd: Fd)
    | DoCloseAll

  type Files = map<string, Bytes>

  function ContentAt(files: Files, path: string): Result<Bytes, WasiError> {
    if path in files then Ok(files[path]) else Err(PathError)
  }

  /** One step over files that do not change; the second part is what a read returned. */
  function Apply(t: Table, files: Files, op: Op): (Table, Bytes) {
    match op
    case DoOpen(d) => (Allocate(t, d.(position := 0)).0, [])
    case DoRead(fd, size) =>
      var content := if fd in t.fds then ContentAt(files, t.fds[fd].path) else Err(BadFd);
      var (t', r) := Read(t, fd, content, size);
      (t', if r.Ok? then r.value else [])
    case DoSeek(fd, offset, whence) => (Seek(t, fd, offset, whence).0, [])
    case DoClose(fd) => (Close(t, fd).0, [])
    case DoCloseAll => (t.(fds := map[]), [])
  }

  function Run(t: Table, files: Files, ops: seq<Op>): Table
    decreases ops
  {
    if ops == [] then t else Run(Apply(t, files, ops[0]).0, files, ops[1..])
  }

  function StepSize(op: Op, fd: Fd): nat {
    if op.DoRead? && op.fd == fd then op.size else 0
  }

  function StepBytes(t: Table, files: Files, op: Op, fd: Fd): Bytes {
    if op.DoRead? && op.fd == fd then Apply(t, files, op).1 else []
  }

  /** Everything the reads of one descriptor return over a run. */
  function Received(t: Table, files: Files, ops: seq<Op>, fd: Fd): Bytes
    decreases ops
  {
    if ops == [] then []
    else
      var t' := Apply(t, files, ops[0]).0;
      StepBytes(t, files, ops[0], fd) + Received(t', files, ops[1..], fd)
  }

  function Opens(ops: seq<Op>): nat {
    if ops == [] then 0 else (if ops[0].DoOpen? then 1 else 0) + Opens(ops[1..])
  }

  function Asked(ops: seq<Op>, fd: Fd): nat {
    if ops == [] then 0 else StepSize(ops[0], fd) + Asked(ops[1..], fd)
  }

  /** `op` leaves descriptor `fd` alone, or reads from it. */
  predicate ReadsOnly(op: Op, fd: Fd) {
    match op
    case DoOpen(_) => true
    case DoRead(_, _) => true
    case DoSeek(f, _, _) => f != fd
    case DoClose(f) => f != fd
    case DoCloseAll => false
  }

  /** A step on another descriptor, including an open that gets another number, leaves this one as it was. */
  lemma OthersUntouched(t: Table, files: Files, op: Op, fd: Fd)
    requires fd in t.fds && ReadsOnly(op, fd) && !(op.DoRead? && op.fd == fd) && (op.DoOpen? ==> t.nextFd != fd)
    ensures fd in Apply(t, files, op).0.fds && Apply(t, files, op).0.fds[fd] == t.fds[fd]
  {
  }

  /** Two reads in a row return what one read of their joint size would, and end where it would. */
  lemma SlicesJoin(data: Bytes, position: nat, a: nat, b: nat)
    ensures var first := Slice(data, position, a);
            first + Slice(data, position + |first|, b) == Slice(data, position, a + b)
  {
  }

  lemma JoinSlices(data: Bytes, position: nat, a: nat, b: nat, first: Bytes, rest: Bytes)
    requires first == Slice(data, position, a) && rest == Slice(data, position + |first|, b)
    ensures first + rest == Slice(data, position, a + b)
  {
    SlicesJoin(data, position, a, b);
  }

  /** The bytes a read returns are those of the file from the position on, as many as there are and fit. */
  lemma SliceExactly(data: Bytes, position: nat, size: nat)
    ensures var slice := Slice(data, position, size);
            && |slice| == (if position >= |data| then 0 else if size < |data| - position then size
                           else |data| - position)
            && forall k | 0 <= k < |slice| :: slice[k] == data[position + k]
  {
  }

  /**
   When a read goes through, and with what: the descriptor is open, may be read, is no directory,
   and the file system has its file. It then moves that descriptor past the bytes returned. A
   refused read changes nothing.
   */
  lemma ReadExactly(t: Table, fd: Fd, content: Result<Bytes, WasiError>, size: nat)
    ensures var open := fd in t.fds;
            var (t', r) := Read(t, fd, content, size);
            && (r.Ok? <==> open && t.fds[fd].canRead && !t.fds[fd].isDirectory && content.Ok?)
            && (r == Err(BadFd) <==> !open)
            && (r == Err(PermissionDenied) <==> open && !t.fds[fd].canRead)
            && (r == Err(IsDirectory) <==> open && t.fds[fd].canRead && t.fds[fd].isDirectory)
            && (r.Err? ==> t' == t)
            && (r.Ok? ==> && |r.value| <= size && t'.fds.Keys == t.fds.Keys && t'.nextFd == t.nextFd
                          && t'.fds[fd] == t.fds[fd].(position := t.fds[fd].position + |r.value|)
                          && forall other | other in t.fds && other != fd :: t'.fds[other] == t.fds[other])
  {
  }

  /** An absolute seek decides what the next read returns, wherever the descriptor was before. */
  lemma SeekThenRead(t: Table, fd: Fd, offset: nat, data: Bytes, size: nat)
    requires fd in t.fds && t.fds[fd].canRead && !t.fds[fd].isDirectory && offset + size <= |data|
    ensures Seek(t, fd, offset, 0).1 == Ok(offset)
    ensures Read(Seek(t, fd, offset, 0).0, fd, Ok(data), size).1 == Ok(data[offset..offset + size])
  {
    assert Slice(data, offset, size) == data[offset..offset + size];
  }

  /**
   Seeks, exactly: they fail on a descriptor that is not open, on a negative target, from the end
   and with an unknown origin, and then change nothing. Otherwise the answer is the new position,
   and nothing but the position of that descriptor changes.
   */
  lemma SeekExactly(t: Table, fd: Fd, offset: int, whence: nat)
    requires Valid(t) && I64_MIN <= offset <= I64_MAX
    ensures var open := fd in t.fds;
            var (t', r) := Seek(t, fd, offset, whence);
            var target := if !open || whence == 0 then offset else t.fds[fd].position + offset;
            && (r == Err(BadFd) <==> !open)
            && (r == Err(NotSupported) <==> open && whence == 2)
            && (r == Err(InvalidArgument) <==> open && (whence > 2 || (whence < 2 && target < 0)))
            && (open && whence < 2 && 0 <= target < U64 ==> r == Ok(target))
            && (open && whence < 2 && target >= U64 ==> r == Ok(target - U64))
            && (r.Err? ==> t' == t)
            && (r.Ok? ==> t' == t.(fds := t.fds[fd := t.fds[fd].(position := r.value)]))
  {
  }

  /**
   A file just opened is read from its beginning under the number the open returned; numbers
   already open are not affected.
   */
  lemma OpenThenRead(t: Table, d: Descriptor, data: Bytes, size: nat)
    requires d.position == 0 && size <= |data|
    ensures var (t', fd) := Allocate(t, d);
            && fd in t'.fds && t'.fds[fd] == d && t'.fds.Keys == t.fds.Keys + {fd}
            && (forall other | other in t.fds && other != fd :: t'.fds[other] == t.fds[other])
            && (d.canRead && !d.isDirectory ==> Read(t', fd, Ok(data), size).1 == Ok(data[..size]))
  {
    assert Slice(data, 0, size) == data[..size];
  }

  ghost predicate Readable(t: Table, files: Files, fd: Fd) {
    fd in t.fds && t.fds[fd].canRead && !t.fds[fd].isDirectory && t.fds[fd].path in files
  }

  lemma StepOnFd(t: Table, files: Files, op: Op, fd: Fd)
    requires Readable(t, files, fd) && ReadsOnly(op, fd)
    requires fd < t.nextFd && t.nextFd + (if op.DoOpen? then 1 else 0) < U32
    ensures var t', bytes := Apply(t, files, op).0, StepBytes(t, files, op, fd);
            && bytes == Slice(files[t.fds[fd].path], t.fds[fd].position, StepSize(op, fd))
            && Readable(t', files, fd) && fd < t'.nextFd
            && t'.nextFd == t.nextFd + (if op.DoOpen? then 1 else 0)
            && t'.fds[fd] == t.fds[fd].(position := t.fds[fd].position + |bytes|)
  {
    if !(op.DoRead? && op.fd == fd) {
      OthersUntouched(t, files, op, fd);
    }
  }

  ghost predicate OnlyReads(ops: seq<Op>, fd: Fd) {
    forall k | 0 <= k < |ops| :: ReadsOnly(ops[k], fd)
  }

  lemma RestOnlyReads(ops: seq<Op>, fd: Fd)
    requires ops != [] && OnlyReads(ops, fd)
    ensures OnlyReads(ops[1..], fd)
  {
    assert forall k | 0 <= k < |ops[1..]| :: ops[1..][k] == ops[k + 1];
  }

  lemma {:induction false} ReceivedSlice(t: Table, files: Files, ops: seq<Op>, fd: Fd)
    requires Readable(t, files, fd)
    requires fd < t.nextFd && t.nextFd + Opens(ops) < U32 && OnlyReads(ops, fd)
    ensures Received(t, files, ops, fd) == Slice(files[t.fds[fd].path], t.fds[fd].position, Asked(ops, fd))
    decreases ops
  {
    if ops != [] {
      assert ReadsOnly(ops[0], fd);
      StepOnFd(t, files, ops[0], fd);
      RestOnlyReads(ops, fd);
      var t', data, start := Apply(t, files, ops[0]).0, files[t.fds[fd].path], t.fds[fd].position;
      ReceivedSlice(t', files, ops[1..], fd);
      JoinSlices(data, start, StepSize(ops[0], fd), Asked(ops[1..], fd),
                 StepBytes(t, files, ops[0], fd), Received(t', files, ops[1..], fd));
    }
  }

  lemma {:induction false} PositionAdvances(t: Table, files: Files, ops: seq<Op>, fd: Fd)
    requires Readable(t, files, fd)
    requires fd < t.nextFd && t.nextFd + Opens(ops) < U32 && OnlyReads(ops, fd)
    ensures fd in Run(t, files, ops).fds
    ensures Run(t, files, ops).fds[fd]
         == t.fds[fd].(position := t.fds[fd].position + |Received(t, files, ops, fd)|)
    decreases ops
  {
    if ops != [] {
      assert ReadsOnly(ops[0], fd);
      StepOnFd(t, files, ops[0], fd);
      RestOnlyReads(ops, fd);
      PositionAdvances(Apply(t, files, ops[0]).0, files, ops[1..], fd);
    }
  }

  /**
   Sequential reads: over any run that only reads from `fd`, whatever happens on other
   descriptors in between, the bytes received are the stretch of the file from the starting
   position of the total size asked for, and the position has advanced by exactly their number.
   */
  lemma ReadsAreSequential(t: Table, files: Files, ops: seq<Op>, fd: Fd)
    requires Readable(t, files, fd)
    requires fd < t.nextFd && t.nextFd + Opens(ops) < U32 && OnlyReads(ops, fd)
    ensures Received(t, files, ops, fd) == Slice(files[t.fds[fd].path], t.fds[fd].position, Asked(ops, fd))
    ensures fd in Run(t, files, ops).fds
    ensures Run(t, files, ops).fds[fd]
         == t.fds[fd].(position := t.fds[fd].position + |Received(t, files, ops, fd)|)
  {
    ReceivedSlice(t, files, ops, fd);
    PositionAdvances(t, files, ops, fd);
  }

  /** A number below the next one that is not open stays unusable until the numbers wrap around. */
  lemma {:induction false} ClosedStaysClosed(t: Table, files: Files, ops: seq<Op>, fd: Fd)
    requires fd < t.nextFd && fd !in t.fds && t.nextFd + Opens(ops) < U32
    ensures fd !in Run(t, files, ops).fds
    decreases ops
  {
    if ops != [] {
      ClosedStaysClosed(Apply(t, files, ops[0]).0, files, ops[1..], fd);
    }
  }

  /** A close goes through exactly for an open descriptor, ends that one and leaves every other as it was. */
  lemma CloseExactly(t: Table, fd: Fd)
    ensures var (t', r) := Close(t, fd);
            && (r == Ok(()) <==> fd in t.fds) && (r == Err(BadFd) <==> fd !in t.fds)
            && fd !in t'.fds && t'.nextFd == t.nextFd
            && (forall other | other != fd ::
                  (other in t'.fds <==> other in t.fds) && (other in t.fds ==> t'.fds[other] == t.fds[other]))
  {
  }

  /** After its close a descriptor is refused by every operation, whatever else happens, until the numbers wrap. */
  lemma ClosedIsRefused(t: Table, files: Files, ops: seq<Op>, fd: Fd)
    requires fd in t.fds && fd < t.nextFd && t.nextFd + Opens(ops) < U32
    ensures var t' := Run(t, files, [DoClose(fd)] + ops);
            && fd !in t'.fds
            && Close(t', fd) == (t', Err(BadFd))
            && (forall offset, whence :: Seek(t', fd, offset, whence) == (t', Err(BadFd)))
            && (forall content, size :: Read(t', fd, content, size) == (t', Err(BadFd)))
  {
    var all := [DoClose(fd)] + ops;
    assert all[0] == DoClose(fd) && all[1..] == ops;
    CloseExactly(t, fd);
    ClosedStaysClosed(Apply(t, files, DoClose(fd)).0, files, ops, fd);
  }

  /** Closing everything ends every descriptor there was: none of them is valid again until the numbers wrap. */
  lemma AllStayClosed(t: Table, files: Files, ops: seq<Op>, fd: Fd)
    requires fd in t.fds && fd < t.nextFd && t.nextFd + Opens(ops) < U32
    ensures fd !in Run(t, files, [DoCloseAll] + ops).fds
    ensures Close(Run(t, files, [DoCloseAll] + ops), fd).1 == Err(BadFd)
  {
    var all := [DoCloseAll] + ops;
    assert all[0] == DoCloseAll && all[1..] == ops;
    ClosedStaysClosed(Apply(t, files, DoCloseAll).0, files, ops, fd);
  }

  lemma WrapTwice(a: nat, n: nat)
    ensures ((a + 1) % U32 + n) % U32 == (a + 1 + n) % U32
  {
    var q := (a + 1) / U32;
    assert (a + 1) % U32 == a + 1 - q * U32;
    assert (a + 1 + n - q * U32) % U32 == (a + 1 + n) % U32;
  }

  /** The next number to be handed out counts the opens, modulo the width. */
  lemma {:induction false} NextNumber(t: Table, files: Files, ops: seq<Op>)
    requires t.nextFd < U32
    ensures Run(t, files, ops).nextFd == (t.nextFd + Opens(ops)) % U32
    decreases ops
  {
    if ops != [] {
      NextNumber(Apply(t, files, ops[0]).0, files, ops[1..]);
      WrapTwice(t.nextFd, Opens(ops[1..]));
    }
  }

  lemma BackExactly(a: nat, n: nat)
    requires a < U32
    ensures (a + n) % U32 == a <==> n % U32 == 0
  {
    var q := n / U32;
    assert n == q * U32 + n % U32;
    assert (a + n) % U32 == (a + n % U32) % U32;
  }

  /** The number the first open of a run would get comes up again exactly after a whole multiple of 2^32 opens. */
  lemma NumberComesBackExactly(t: Table, files: Files, ops: seq<Op>)
    requires t.nextFd < U32
    ensures Run(t, files, ops).nextFd == t.nextFd <==> Opens(ops) % U32 == 0
  {
    NextNumber(t, files, ops);
    BackExactly(t.nextFd, Opens(ops));
  }

  /** Descriptors handed out before the numbers wrap are at least 3, and no number is handed out twice. */
  lemma {:induction false} NumbersGrow(t: Table, files: Files, ops: seq<Op>)
    requires 3 <= t.nextFd && (forall fd | fd in t.fds :: 3 <= fd < t.nextFd) && t.nextFd + Opens(ops) < U32
    ensures var t' := Run(t, files, ops);
            && t'.nextFd == t.nextFd + Opens(ops)
            && forall fd | fd in t'.fds :: 3 <= fd < t'.nextFd
    decreases ops
  {
    if ops != [] {
      NumbersGrow(Apply(t, files, ops[0]).0, files, ops[1..]);
    }
  }

  /** A seek succeeds only within the machine range, and a relative seek back is undone by the same seek forth. */
  lemma SeekBackAndForth(position: nat, offset: int)
    requires position < U64 && I64_MIN < offset < 0
    ensures SeekTo(position, offset, 1).Ok? <==> -offset <= position
    ensures SeekTo(position, offset, 1).Ok? ==> SeekTo(SeekTo(position, offset, 1).value, -offset, 1) == Ok(position)
  {
  }

  // ---------- the code ----------

  class FdTable {
    var fds: map<Fd, Descriptor>
    var nextFd: Fd

    ghost function State(): Table
      reads this
    {
      Table(fds, nextFd)
    }

    constructor ()
      ensures State() == EMPTY && Valid(State())
    {
      fds, nextFd := map[], 3;
    }

    method AllocateFd(d: Descriptor) returns (fd: Fd)
      requires Valid(State()) && d.position < U64
      modifies this
      ensures Valid(State()) && (State(), fd) == Allocate(old(State()), d)
    {
      fd := nextFd;
      fds := fds[fd := d];
      nextFd := (nextFd + 1) % U32;
    }

    method CloseFd(fd: Fd) returns (r: Result<(), WasiError>)
      requires Valid(State())
      modifies this`fds
      ensures Valid(State()) && (State(), r) == Close(old(State()), fd)
    {
      if fd !in fds {
        return Err(BadFd);
      }
      fds := fds - {fd};
      r := Ok(());
    }

    method CloseAll()
      modifies this`fds
      ensures State() == old(State()).(fds := map[])
    {
      fds := map[];
    }
  }

  class WasiAdapter {
    const table: FdTable

    constructor ()
      ensures table.State() == EMPTY && fresh(table)
    {
      table := new FdTable();
    }

    /** `stat` is the file system's answer for the path: the inode and whether it is a directory. */
    method FdOpen(path: string, canRead: bool, canWrite: bool, stat: Result<(int, bool), WasiError>)
      returns (r: Result<Fd, WasiError>)
      requires Valid(table.State())
      modifies table
      ensures Valid(table.State())
      ensures match stat
              case Err(e) => r == Err(e) && table.State() == old(table.State())
              case Ok((inode, isDir)) =>
                var d := Descriptor(inode, path, canRead, canWrite, 0, isDir);
                table.State() == Allocate(old(table.State()), d).0 && r == Ok(Allocate(old(table.State()), d).1)
    {
      if stat.Err? {
        return Err(stat.error);
      }
      var fd := table.AllocateFd(Descriptor(stat.value.0, path, canRead, canWrite, 0, stat.value.1));
      r := Ok(fd);
    }

    /** The bytes are copied to the front of the caller's buffer; the rest of it is left alone. */
    method FdRead(fd: Fd, content: Result<Bytes, WasiError>, buf: array<bv8>) returns (r: Result<nat, WasiError>)
      requires Valid(table.State()) && buf.Length <= I64_MAX && (content.Ok? ==> |content.value| <= I64_MAX)
      modifies table`fds, buf
      ensures Valid(table.State())
      ensures var (t, bytes) := Read(old(table.State()), fd, content, buf.Length);
              && table.State() == t
              && match bytes
                 case Err(e) => r == Err(e) && buf[..] == old(buf[..])
                 case Ok(b) => r == Ok(|b|) && |b| <= buf.Length && buf[..] == b + old(buf[..])[|b|..]
    {
      if fd !in table.fds {
        return Err(BadFd);
      }
      var d := table.fds[fd];
      if !d.canRead {
        return Err(PermissionDenied);
      }
      if d.isDirectory {
        return Err(IsDirectory);
      }
      if content.Err? {
        return Err(IoError);
      }
      var data := content.value;
      var start := d.position;
      if start >= |data| {
        assert table.fds[fd := d.(position := d.position + 0)] == table.fds;
        return Ok(0);
      }
      var end := if start + buf.Length < |data| then start + buf.Length else |data|;
      var toRead := end - start;
      forall k | 0 <= k < toRead {
        buf[k] := data[start + k];
      }
      table.fds := table.fds[fd := d.(position := d.position + toRead)];
      r := Ok(toRead);
    }

    method FdSeek(fd: Fd, offset: int, whence: nat) returns (r: Result<nat, WasiError>)
      requires Valid(table.State()) && I64_MIN <= offset <= I64_MAX && whence < 256
      modifies table`fds
      ensures Valid(table.State()) && (table.State(), r) == Seek(old(table.State()), fd, offset, whence)
    {
      if fd !in table.fds {
        return Err(BadFd);
      }
      var d := table.fds[fd];
      var position := d.position;
      match whence {
        case 0 =>
          if offset < 0 {
            return Err(InvalidArgument);
          }
          position := offset;
        case 1 =>
          if offset < 0 {
            if -offset > position {
              return Err(InvalidArgument);
            }
            position := position + offset;
          } else {
            position := (position + offset) % U64;
          }
        case 2 => return Err(NotSupported);
        case _ => return Err(InvalidArgument);
      }
      table.fds := table.fds[fd := d.(position := position)];
      r := Ok(position);
    }

    method FdClose(fd: Fd) returns (r: Result<(), WasiError>)
      requires Valid(table.State())
      modifies table`fds
      ensures Valid(table.State()) && (table.State(), r) == Close(old(table.State()), fd)
    {
      r := table.CloseFd(fd);
    }
  }
}
