/** The overlay's treatment of mergeable secret files as a state machine: real
    contents, open handles, and the reply to each request (src/fs.rs with
    redaction on). The handler that redacts and merges is an input. */
module Overlay {
  import opened Wrappers

  type Path = string

  /** A mergeable text handler: the view of a file, and the new content for an
      edited view. */
  datatype Handler = Handler(
    redact: seq<byte> -> Result<seq<byte>>,
    merge: (seq<byte>, seq<byte>) -> Result<seq<byte>>)

  /** A merge succeeds exactly when both sides have a view, and what it stores
      looks like what was written. */
  ghost predicate Lawful(k: Handler)
  {
    forall o, w ::
      && (k.merge(o, w).Ok? <==> k.redact(o).Ok? && k.redact(w).Ok?)
      && (k.merge(o, w).Ok? ==> k.redact(k.merge(o, w).value) == k.redact(w))
  }

  datatype Handle =
    | Redacted(file: Path, served: seq<byte>, pending: Option<seq<byte>>)
    | Failed

  /** `files` maps each existing handled file to its real bytes. */
  datatype State = State(files: map<Path, seq<byte>>, handles: map<nat, Handle>, next: nat)

  datatype Errno = ENOENT | EIO | EBADF

  datatype Request =
    | Getattr(path: Path)
    | Setattr(path: Path, size: Option<nat>, on: Option<nat>)
    | Open(path: Path, truncate: bool)
    | Create(path: Path, truncate: bool)
    | Read(fh: nat, offset: nat, count: nat)
    | Write(fh: nat, offset: nat, data: seq<byte>)
    | Flush(fh: nat)
    | Fsync(fh: nat)
    | Release(fh: nat)

  datatype Reply =
    | Attr(size: nat)
    | Opened(handle: nat)
    | Created(size: nat, handle: nat)
    | Data(bytes: seq<byte>)
    | Written(n: nat)
    | Done
    | Fail(errno: Errno)

  // ---- Buffers ----

  /** `Vec::resize(n, 0)`. */
  function Resize(buf: seq<byte>, n: nat): (r: seq<byte>)
    ensures |r| == n
  {
    if n <= |buf| then buf[..n] else buf + seq(n - |buf|, _ => 0)
  }

  /** Grow to the end of the write if needed, then copy `data` in. */
  function WriteInto(buf: seq<byte>, offset: nat, data: seq<byte>): seq<byte>
  {
    var end := offset + |data|;
    var grown := if |buf| < end then Resize(buf, end) else buf;
    grown[..offset] + data + grown[end..]
  }

  function Slice(bytes: seq<byte>, offset: nat, count: nat): seq<byte>
  {
    var start := Min(offset, |bytes|);
    bytes[start..Min(start + count, |bytes|)]
  }

  function Contents(h: Handle): seq<byte>
    requires h.Redacted?
  {
    if h.pending.Some? then h.pending.value else h.served
  }

  // ---- Requests ----

  /** The size `attr` reports: that of the view, or 0 when there is none. */
  function ViewSize(k: Handler, original: seq<byte>): nat
  {
    match k.redact(original)
    case Ok(view) => |view|
    case Err => 0
  }

  function AttrReply(k: Handler, files: map<Path, seq<byte>>, path: Path): Reply
  {
    if path in files then Attr(ViewSize(k, files[path])) else Fail(ENOENT)
  }

  function Insert(s: State, h: Handle): State
  {
    s.(handles := s.handles[s.next := h], next := s.next + 1)
  }

  function OpenStep(k: Handler, s: State, path: Path, truncate: bool): (State, Reply)
  {
    if path !in s.files then (s, Fail(ENOENT))
    else
      var h := match k.redact(s.files[path])
               case Ok(view) => Redacted(path, view, if truncate then Some([]) else None)
               case Err => Failed;
      (Insert(s, h), Opened(s.next))
  }

  function CreateStep(k: Handler, s: State, path: Path, truncate: bool): (State, Reply)
  {
    var files := if truncate || path !in s.files then s.files[path := []] else s.files;
    var s1 := Insert(s.(files := files), Redacted(path, [], Some([])));
    (s1, Created(ViewSize(k, files[path]), s.next))
  }

  function SetattrStep(k: Handler, s: State, path: Path, size: Option<nat>, on: Option<nat>): (State, Reply)
  {
    if size.Some? && on.Some? && on.value in s.handles && s.handles[on.value].Redacted? then
      var h := s.handles[on.value];
      var s1 := s.(handles := s.handles[on.value := h.(pending := Some(Resize(Contents(h), size.value)))]);
      (s1, if path in s.files then Attr(size.value) else Fail(ENOENT))
    else if size.Some? && path in s.files && k.redact(s.files[path]).Err? then
      (s, Fail(EIO))
    else
      (s, AttrReply(k, s.files, path))
  }

  function ReadStep(s: State, fh: nat, offset: nat, count: nat): (State, Reply)
  {
    if fh !in s.handles then (s, Fail(EBADF))
    else
      match s.handles[fh]
      case Redacted(_, _, _) => (s, Data(Slice(Contents(s.handles[fh]), offset, count)))
      case Failed => (s, Fail(EIO))
  }

  function WriteStep(s: State, fh: nat, offset: nat, data: seq<byte>): (State, Reply)
  {
    if fh !in s.handles then (s, Fail(EBADF))
    else
      var h := s.handles[fh];
      match h
      case Redacted(_, _, _) =>
        (s.(handles := s.handles[fh := h.(pending := Some(WriteInto(Contents(h), offset, data)))]),
         Written(|data|))
      case Failed => (s, Fail(EIO))
  }

  /** Take the pending buffer and merge it onto the real file; a failed merge
      drops the buffer and touches nothing else. */
  function Persist(k: Handler, s: State, fh: nat): (State, Reply)
  {
    if fh !in s.handles || s.handles[fh].Failed? || s.handles[fh].pending.None? then (s, Done)
    else
      var h := s.handles[fh];
      var dropped := s.(handles := s.handles[fh := h.(pending := None)]);
      if h.file !in s.files then (dropped, Fail(EIO))
      else
        match k.merge(s.files[h.file], h.pending.value)
        case Err => (dropped, Fail(EIO))
        case Ok(merged) =>
          match k.redact(merged)
          case Err => (dropped, Fail(EIO))
          case Ok(view) =>
            (s.(files := s.files[h.file := merged],
                handles := s.handles[fh := h.(served := view, pending := None)]), Done)
  }

  function ReleaseStep(k: Handler, s: State, fh: nat): (State, Reply)
  {
    var (s1, reply) := Persist(k, s, fh);
    (s1.(handles := s1.handles - {fh}), reply)
  }

  function Step(k: Handler, s: State, r: Request): (State, Reply)
  {
    match r
    case Getattr(path) => (s, AttrReply(k, s.files, path))
    case Setattr(path, size, on) => SetattrStep(k, s, path, size, on)
    case Open(path, truncate) => OpenStep(k, s, path, truncate)
    case Create(path, truncate) => CreateStep(k, s, path, truncate)
    case Read(fh, offset, count) => ReadStep(s, fh, offset, count)
    case Write(fh, offset, data) => WriteStep(s, fh, offset, data)
    case Flush(fh) => Persist(k, s, fh)
    case Fsync(fh) => Persist(k, s, fh)
    case Release(fh) => ReleaseStep(k, s, fh)
  }

  /** The state and the replies after a list of requests. */
  function Run(k: Handler, s: State, rs: seq<Request>): (State, seq<Reply>)
  {
    if rs == [] then (s, [])
    else
      var (s1, replies) := Run(k, s, rs[..|rs| - 1]);
      var (s2, reply) := Step(k, s1, rs[|rs| - 1]);
      (s2, replies + [reply])
  }

  /** No unlink is modelled, so an open handle always has its file. */
  ghost predicate Valid(s: State)
  {
    && (forall fh :: fh in s.handles ==> fh < s.next)
    && (forall fh :: fh in s.handles && s.handles[fh].Redacted? ==> s.handles[fh].file in s.files)
  }

  lemma StepKeepsValid(k: Handler, s: State, r: Request)
    requires Valid(s)
    ensures Valid(Step(k, s, r).0)
    ensures s.files.Keys <= Step(k, s, r).0.files.Keys
  {}
}
