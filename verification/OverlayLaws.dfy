/** What holds of every run of the overlay. */
module OverlayLaws {
  import opened Wrappers
  import opened Overlay

  // ---- Two runs: replies depend only on the redacted views ----

  /** Same files, same views, same handles; the hidden values may differ. */
  ghost predicate LookAlike(k: Handler, s: State, t: State)
  {
    && s.handles == t.handles
    && s.next == t.next
    && s.files.Keys == t.files.Keys
    && forall p :: p in s.files ==> k.redact(s.files[p]) == k.redact(t.files[p])
  }

  lemma PersistIndependent(k: Handler, s: State, t: State, fh: nat)
    requires Lawful(k) && LookAlike(k, s, t)
    ensures Persist(k, s, fh).1 == Persist(k, t, fh).1
    ensures LookAlike(k, Persist(k, s, fh).0, Persist(k, t, fh).0)
  {}

  lemma SizesIndependent(k: Handler, s: State, t: State, path: Path)
    requires Lawful(k) && LookAlike(k, s, t)
    ensures path in s.files <==> path in t.files
    ensures path in s.files ==> ViewSize(k, s.files[path]) == ViewSize(k, t.files[path])
    ensures AttrReply(k, s.files, path) == AttrReply(k, t.files, path)
  {}

  lemma OpenIndependent(k: Handler, s: State, t: State, path: Path, truncate: bool)
    requires Lawful(k) && LookAlike(k, s, t)
    ensures OpenStep(k, s, path, truncate).1 == OpenStep(k, t, path, truncate).1
    ensures LookAlike(k, OpenStep(k, s, path, truncate).0, OpenStep(k, t, path, truncate).0)
  {}

  lemma CreateIndependent(k: Handler, s: State, t: State, path: Path, truncate: bool)
    requires Lawful(k) && LookAlike(k, s, t)
    ensures CreateStep(k, s, path, truncate).1 == CreateStep(k, t, path, truncate).1
    ensures LookAlike(k, CreateStep(k, s, path, truncate).0, CreateStep(k, t, path, truncate).0)
  {}

  lemma SetattrIndependent(k: Handler, s: State, t: State, path: Path, size: Option<nat>, on: Option<nat>)
    requires Lawful(k) && LookAlike(k, s, t)
    ensures SetattrStep(k, s, path, size, on).1 == SetattrStep(k, t, path, size, on).1
    ensures LookAlike(k, SetattrStep(k, s, path, size, on).0, SetattrStep(k, t, path, size, on).0)
  {}

  lemma StepIndependent(k: Handler, s: State, t: State, r: Request)
    requires Lawful(k) && LookAlike(k, s, t)
    ensures Step(k, s, r).1 == Step(k, t, r).1
    ensures LookAlike(k, Step(k, s, r).0, Step(k, t, r).0)
  {
    match r
    case Getattr(path) => SizesIndependent(k, s, t, path);
    case Setattr(path, size, on) => SetattrIndependent(k, s, t, path, size, on);
    case Open(path, truncate) => OpenIndependent(k, s, t, path, truncate);
    case Create(path, truncate) => CreateIndependent(k, s, t, path, truncate);
    case Flush(fh) => PersistIndependent(k, s, t, fh);
    case Fsync(fh) => PersistIndependent(k, s, t, fh);
    case Release(fh) => PersistIndependent(k, s, t, fh);
    case Read(_, _, _) =>
    case Write(_, _, _) =>
  }

  /** Every list of requests gets the same replies from two overlays whose files
      look alike, and the files still look alike afterwards. */
  lemma {:induction false} RunsIndependent(k: Handler, s: State, t: State, rs: seq<Request>)
    requires Lawful(k) && LookAlike(k, s, t)
    ensures Run(k, s, rs).1 == Run(k, t, rs).1
    ensures LookAlike(k, Run(k, s, rs).0, Run(k, t, rs).0)
  {
    if rs != [] {
      RunsIndependent(k, s, t, rs[..|rs| - 1]);
      StepIndependent(k, Run(k, s, rs[..|rs| - 1]).0, Run(k, t, rs[..|rs| - 1]).0, rs[|rs| - 1]);
    }
  }

  /** The wrapped program: any function from the replies so far to the next
      request. */
  type Program = seq<Reply> -> Request

  function RunProgram(k: Handler, s: State, program: Program, n: nat): (State, seq<Reply>)
  {
    if n == 0 then (s, [])
    else
      var (s1, replies) := RunProgram(k, s, program, n - 1);
      var (s2, reply) := Step(k, s1, program(replies));
      (s2, replies + [reply])
  }

  /** No program, however it reacts to what it reads, can tell two overlays
      apart whose files look alike. */
  lemma {:induction false} ProgramsIndependent(k: Handler, s: State, t: State, program: Program, n: nat)
    requires Lawful(k) && LookAlike(k, s, t)
    ensures RunProgram(k, s, program, n).1 == RunProgram(k, t, program, n).1
    ensures LookAlike(k, RunProgram(k, s, program, n).0, RunProgram(k, t, program, n).0)
  {
    if n > 0 {
      ProgramsIndependent(k, s, t, program, n - 1);
      StepIndependent(k, RunProgram(k, s, program, n - 1).0, RunProgram(k, t, program, n - 1).0,
                      program(RunProgram(k, s, program, n - 1).1));
    }
  }

  // ---- One handle between persists: an ordinary file ----

  /** An ordinary file: a write sets its own range, zero-fills a gap and leaves
      the rest; a write of nothing does nothing. */
  function PlainWrite(c: seq<byte>, offset: nat, data: seq<byte>): seq<byte>
  {
    if data == [] then c
    else
      var n := if |c| < offset + |data| then offset + |data| else |c|;
      seq(n, i requires 0 <= i < n =>
        if offset <= i < offset + |data| then data[i - offset] else if i < |c| then c[i] else 0)
  }

  function PlainTruncate(c: seq<byte>, size: nat): seq<byte>
  {
    seq(size, i requires 0 <= i < size => if i < |c| then c[i] else 0)
  }

  function PlainRead(c: seq<byte>, offset: nat, count: nat): seq<byte>
  {
    if |c| <= offset then []
    else if |c| - offset < count then c[offset..]
    else c[offset..offset + count]
  }

  /** The handle's buffer is written as an ordinary file is, except that an
      empty write beyond the end still extends it. */
  lemma WriteIntoIsPlain(c: seq<byte>, offset: nat, data: seq<byte>)
    ensures WriteInto(c, offset, data) == PlainWrite(c, offset, data) <==> data != [] || offset <= |c|
    ensures data == [] && |c| < offset ==> WriteInto(c, offset, data) == PlainTruncate(c, offset)
  {
    var w, p := WriteInto(c, offset, data), PlainWrite(c, offset, data);
    if data == [] {
      if |c| < offset {
        assert |w| == offset;
        assert w == PlainTruncate(c, offset);
      } else {
        assert w == c;
      }
    } else {
      assert |w| == |p|;
      assert forall i :: 0 <= i < |p| ==> w[i] == p[i];
      assert w == p;
    }
  }

  lemma EmptyWriteExtends()
    ensures WriteInto([], 1, []) == [0] && PlainWrite([], 1, []) == []
  {
    assert Resize([], 1) == [0];
  }

  lemma ResizeIsPlain(c: seq<byte>, size: nat)
    ensures Resize(c, size) == PlainTruncate(c, size)
  {
    assert forall i :: 0 <= i < size ==> Resize(c, size)[i] == PlainTruncate(c, size)[i];
  }

  lemma SliceIsPlain(c: seq<byte>, offset: nat, count: nat)
    ensures Slice(c, offset, count) == PlainRead(c, offset, count)
  {}

  /** The request acts on handle `fh` without ending a round of edits. */
  predicate Edits(r: Request, fh: nat)
  {
    match r
    case Read(f, _, _) => f == fh
    case Write(f, _, data) => f == fh
    case Setattr(_, size, on) => size.Some? && on == Some(fh)
    case _ => false
  }

  predicate EndsRound(r: Request, fh: nat)
  {
    match r
    case Flush(f) => f == fh
    case Fsync(f) => f == fh
    case Release(f) => f == fh
    case _ => false
  }

  /** A write of nothing beyond the end of a handle holding `c`. */
  predicate GrowsByNothing(c: seq<byte>, r: Request, fh: nat)
  {
    r.Write? && r.fh == fh && r.data == [] && |c| < r.offset
  }

  /** What an ordinary file holding `c` becomes and answers. */
  function PlainStep(c: seq<byte>, r: Request): (seq<byte>, Option<Reply>)
  {
    match r
    case Read(_, offset, count) => (c, Some(Data(PlainRead(c, offset, count))))
    case Write(_, offset, data) => (PlainWrite(c, offset, data), Some(Written(|data|)))
    case Setattr(_, size, _) => (if size.Some? then PlainTruncate(c, size.value) else c, None)
    case _ => (c, None)
  }

  function PlainRun(c: seq<byte>, rs: seq<Request>, fh: nat): seq<byte>
  {
    if rs == [] then c
    else
      var c1 := PlainRun(c, rs[..|rs| - 1], fh);
      if Edits(rs[|rs| - 1], fh) then PlainStep(c1, rs[|rs| - 1]).0 else c1
  }

  /** What handle `fh` holds, if it is open on a redacted file. */
  function Holds(s: State, fh: nat): Option<seq<byte>>
  {
    if fh in s.handles && s.handles[fh].Redacted? then Some(Contents(s.handles[fh])) else None
  }

  lemma StepIsPlain(k: Handler, s: State, r: Request, fh: nat)
    requires Valid(s) && Holds(s, fh).Some? && !EndsRound(r, fh)
    ensures
      var c, (s1, reply) := Holds(s, fh).value, Step(k, s, r);
      && Holds(s1, fh).Some? && s1.handles[fh].file == s.handles[fh].file
      && (Holds(s1, fh).value == (if Edits(r, fh) then PlainStep(c, r).0 else c) <==> !GrowsByNothing(c, r, fh))
      && (Edits(r, fh) && !r.Setattr? ==> Some(reply) == PlainStep(c, r).1)
      && (Edits(r, fh) && r.Setattr? && r.path in s.files ==> reply == Attr(r.size.value))
  {
    var c := Holds(s, fh).value;
    match r
    case Read(_, offset, count) => SliceIsPlain(c, offset, count);
    case Write(_, offset, data) => WriteIntoIsPlain(c, offset, data);
    case Setattr(_, size, _) =>
      if size.Some? {
        ResizeIsPlain(c, size.value);
      }
    case _ =>
  }

  /** An open redacted handle stays open on its file until the round ends. */
  lemma {:induction false} HandleStays(k: Handler, s: State, rs: seq<Request>, fh: nat)
    requires Valid(s) && Holds(s, fh).Some?
    requires forall i :: 0 <= i < |rs| ==> !EndsRound(rs[i], fh)
    ensures Valid(Run(k, s, rs).0) && Holds(Run(k, s, rs).0, fh).Some?
    ensures Run(k, s, rs).0.handles[fh].file == s.handles[fh].file
  {
    if rs != [] {
      var front := rs[..|rs| - 1];
      HandleStays(k, s, front, fh);
      StepIsPlain(k, Run(k, s, front).0, rs[|rs| - 1], fh);
      StepKeepsValid(k, Run(k, s, front).0, rs[|rs| - 1]);
    }
  }

  /** After the first `n` requests the handle holds what an ordinary file
      starting from its contents would. */
  ghost predicate PlainAt(k: Handler, s: State, rs: seq<Request>, fh: nat, n: nat)
    requires n <= |rs| && Holds(s, fh).Some?
  {
    Holds(Run(k, s, rs[..n]).0, fh) == Some(PlainRun(Holds(s, fh).value, rs[..n], fh))
  }

  /** No request of the run is an empty write beyond the end of the ordinary
      file at that point. */
  ghost predicate NeverGrowsByNothing(c: seq<byte>, rs: seq<Request>, fh: nat)
  {
    forall i :: 0 <= i < |rs| ==> !GrowsByNothing(PlainRun(c, rs[..i], fh), rs[i], fh)
  }

  /** One request more. */
  lemma PlainAtNext(k: Handler, s: State, rs: seq<Request>, fh: nat, n: nat)
    requires Valid(s) && Holds(s, fh).Some? && n < |rs| && PlainAt(k, s, rs, fh, n)
    requires forall i :: 0 <= i < |rs| ==> !EndsRound(rs[i], fh)
    ensures PlainAt(k, s, rs, fh, n + 1) <==> !GrowsByNothing(PlainRun(Holds(s, fh).value, rs[..n], fh), rs[n], fh)
  {
    assert rs[..n + 1][..n] == rs[..n];
    HandleStays(k, s, rs[..n], fh);
    HandleStays(k, s, rs[..n + 1], fh);
    StepIsPlain(k, Run(k, s, rs[..n]).0, rs[n], fh);
  }

  lemma {:induction false} PlainUpTo(k: Handler, s: State, rs: seq<Request>, fh: nat, n: nat)
    requires Valid(s) && Holds(s, fh).Some? && n <= |rs|
    requires forall i :: 0 <= i < |rs| ==> !EndsRound(rs[i], fh)
    requires NeverGrowsByNothing(Holds(s, fh).value, rs, fh)
    ensures PlainAt(k, s, rs, fh, n)
  {
    if n > 0 {
      PlainUpTo(k, s, rs, fh, n - 1);
      PlainAtNext(k, s, rs, fh, n - 1);
    }
  }

  /** Between persists a redacted handle is an ordinary zero-filled file: under
      any requests, on this handle or on others, it holds at every point what an
      ordinary file would, exactly when no request is an empty write beyond the
      end. */
  lemma HandleIsPlainFile(k: Handler, s: State, rs: seq<Request>, fh: nat)
    requires Valid(s) && Holds(s, fh).Some?
    requires forall i :: 0 <= i < |rs| ==> !EndsRound(rs[i], fh)
    ensures (forall n: nat :: n <= |rs| ==> PlainAt(k, s, rs, fh, n)) <==> NeverGrowsByNothing(Holds(s, fh).value, rs, fh)
  {
    if NeverGrowsByNothing(Holds(s, fh).value, rs, fh) {
      forall n: nat | n <= |rs| ensures PlainAt(k, s, rs, fh, n) {
        PlainUpTo(k, s, rs, fh, n);
      }
    }
    if forall n: nat :: n <= |rs| ==> PlainAt(k, s, rs, fh, n) {
      forall n | 0 <= n < |rs| ensures !GrowsByNothing(PlainRun(Holds(s, fh).value, rs[..n], fh), rs[n], fh) {
        assert PlainAt(k, s, rs, fh, n) && PlainAt(k, s, rs, fh, n + 1);
        PlainAtNext(k, s, rs, fh, n);
      }
    }
  }

  /** And its replies are those of that file: a read returns the bytes an
      ordinary file would return, a write reports its length, a truncation the
      new size. */
  lemma RepliesArePlain(k: Handler, s: State, rs: seq<Request>, fh: nat, r: Request)
    requires Valid(s) && Holds(s, fh).Some? && Edits(r, fh)
    requires forall i :: 0 <= i < |rs| ==> !EndsRound(rs[i], fh)
    requires NeverGrowsByNothing(Holds(s, fh).value, rs, fh)
    ensures
      var (s1, c) := (Run(k, s, rs).0, PlainRun(Holds(s, fh).value, rs, fh));
      var reply := Step(k, s1, r).1;
      match r
      case Read(_, offset, count) => reply == Data(PlainRead(c, offset, count))
      case Write(_, _, data) => reply == Written(|data|)
      case Setattr(path, size, _) => reply == (if path in s1.files then Attr(size.value) else Fail(ENOENT))
      case _ => true
  {
    HandleStays(k, s, rs, fh);
    PlainUpTo(k, s, rs, fh, |rs|);
    assert rs[..|rs|] == rs;
    StepIsPlain(k, Run(k, s, rs).0, r, fh);
  }

  /** The starting point of a round: the view, or nothing under O_TRUNC. */
  lemma OpenStartsPlainFile(k: Handler, s: State, path: Path, truncate: bool)
    requires Valid(s) && path in s.files && k.redact(s.files[path]).Ok?
    ensures
      var (s1, reply) := Step(k, s, Open(path, truncate));
      && reply == Opened(s.next) && s.next !in s.handles
      && s1.files == s.files
      && s.next in s1.handles && s1.handles[s.next].Redacted? && s1.handles[s.next].file == path
      && Contents(s1.handles[s.next]) == (if truncate then [] else k.redact(s.files[path]).value)
  {}

  /** A created handle starts empty, whatever the file holds: its round begins
      with an empty buffer to persist even when an existing file was kept. */
  lemma CreateStartsEmpty(k: Handler, s: State, path: Path, truncate: bool)
    requires Valid(s)
    ensures
      var (s1, reply) := Step(k, s, Create(path, truncate));
      && reply.Created? && reply.handle == s.next && s.next !in s.handles
      && s1.files == (if truncate || path !in s.files then s.files[path := []] else s.files)
      && s1.handles == s.handles[s.next := Redacted(path, [], Some([]))]
  {}

  // ---- Sizes ----

  /** The size reported for a file is the number of bytes a reader gets: what a
      handle opened next without O_TRUNC holds, and what reading it whole
      returns. It is 0 for a file without a view, and there is none for no
      file. */
  lemma SizeIsWhatIsRead(k: Handler, s: State, path: Path, count: nat)
    requires Valid(s)
    ensures path !in s.files ==> Step(k, s, Getattr(path)) == (s, Fail(ENOENT))
    ensures path in s.files && k.redact(s.files[path]).Err? ==> Step(k, s, Getattr(path)) == (s, Attr(0))
    ensures path in s.files && k.redact(s.files[path]).Ok? ==>
              var s1 := Step(k, s, Open(path, false)).0;
              && Holds(s1, s.next).Some?
              && var c := Holds(s1, s.next).value;
                 && Step(k, s, Getattr(path)) == (s, Attr(|c|))
                 && (count >= |c| ==> Step(k, s1, Read(s.next, 0, count)).1 == Data(c))
  {
    if path in s.files && k.redact(s.files[path]).Ok? {
      OpenStartsPlainFile(k, s, path, false);
      var view := k.redact(s.files[path]).value;
      if count >= |view| {
        WholeSlice(view, count);
      }
    }
  }

  /** The size a creation reports is the one reported for the file afterwards;
      a request that changes no size reports it too. */
  lemma CreatedSize(k: Handler, s: State, path: Path, truncate: bool, on: Option<nat>)
    ensures
      var (s1, reply) := Step(k, s, Create(path, truncate));
      reply.Created? && Step(k, s1, Getattr(path)).1 == Attr(reply.size)
    ensures Step(k, s, Setattr(path, None, on)) == Step(k, s, Getattr(path))
  {}

  // ---- Errors ----

  /** Exactly when a request fails, and how. */
  lemma WhenRequestsFail(k: Handler, s: State, r: Request, e: Errno)
    requires Lawful(k) && Valid(s)
    ensures Step(k, s, r).1 == Fail(e) <==>
              match r
              case Getattr(path) => path !in s.files && e == ENOENT
              case Open(path, _) => path !in s.files && e == ENOENT
              case Create(_, _) => false
              case Setattr(path, size, on) =>
                if path !in s.files then e == ENOENT
                else size.Some? && !Names(s, on) && k.redact(s.files[path]).Err? && e == EIO
              case Read(fh, _, _) => if fh !in s.handles then e == EBADF else s.handles[fh].Failed? && e == EIO
              case Write(fh, _, _) => if fh !in s.handles then e == EBADF else s.handles[fh].Failed? && e == EIO
              case Flush(fh) => CannotPersist(k, s, fh) && e == EIO
              case Fsync(fh) => CannotPersist(k, s, fh) && e == EIO
              case Release(fh) => CannotPersist(k, s, fh) && e == EIO
  {
    match r
    case Flush(fh) => PersistFails(k, s, r, fh);
    case Fsync(fh) => PersistFails(k, s, r, fh);
    case Release(fh) => PersistFails(k, s, r, fh);
    case _ =>
  }

  /** There is something to persist, and it or the file has no view. */
  predicate CannotPersist(k: Handler, s: State, fh: nat)
  {
    && Holds(s, fh).Some? && s.handles[fh].pending.Some?
    && (s.handles[fh].file in s.files && k.redact(s.files[s.handles[fh].file]).Ok? ==>
          k.redact(s.handles[fh].pending.value).Err?)
  }

  lemma PersistFails(k: Handler, s: State, r: Request, fh: nat)
    requires Lawful(k) && Valid(s) && EndsRound(r, fh)
    ensures Step(k, s, r).1 == if CannotPersist(k, s, fh) then Fail(EIO) else Done
  {
    if Holds(s, fh).Some? && s.handles[fh].pending.Some? {
      PersistOutcome(k, s, r, fh);
    } else {
      NothingToPersist(k, s, r, fh);
    }
  }

  /** A file without a view opens, but the handle gives nothing away and takes
      nothing in. */
  lemma FailedHandle(k: Handler, s: State, path: Path, truncate: bool, offset: nat, count: nat, data: seq<byte>)
    requires Valid(s) && path in s.files && k.redact(s.files[path]).Err?
    ensures
      var (s1, reply) := Step(k, s, Open(path, truncate));
      && reply == Opened(s.next) && s1.files == s.files
      && Step(k, s1, Read(s.next, offset, count)) == (s1, Fail(EIO))
      && Step(k, s1, Write(s.next, offset, data)) == (s1, Fail(EIO))
      && Step(k, s1, Release(s.next)).0.files == s.files
  {}

  // ---- Truncation through setattr ----

  /** The request names an open handle on a redacted file. */
  predicate Names(s: State, on: Option<nat>) { on.Some? && Holds(s, on.value).Some? }

  /** A truncation is answered with the new size exactly when it names an open
      redacted handle, or changes nothing; then, and only then, a handle holds
      the truncated bytes. A truncation that names none changes nothing. */
  lemma TruncateAnswer(k: Handler, s: State, path: Path, n: nat, on: Option<nat>)
    requires Valid(s) && path in s.files && k.redact(s.files[path]).Ok?
    ensures
      var (s1, reply) := Step(k, s, Setattr(path, Some(n), on));
      && (reply == Attr(n) <==> Names(s, on) || n == ViewSize(k, s.files[path]))
      && (!Names(s, on) ==> s1 == s)
      && (Names(s, on) ==>
            && Holds(s1, on.value) == Some(PlainTruncate(Holds(s, on.value).value, n))
            && s1.files == s.files && s1.handles - {on.value} == s.handles - {on.value})
  {
    if Names(s, on) {
      ResizeIsPlain(Holds(s, on.value).value, n);
      var h := Step(k, s, Setattr(path, Some(n), on)).0.handles[on.value];
      assert s.handles[on.value := h] - {on.value} == s.handles - {on.value};
    }
  }

  /** A reader that opens the file after a truncation sees the untruncated view,
      handle or no handle, so it sees `n` bytes only if there were `n`. */
  lemma TruncateNotShown(k: Handler, s: State, path: Path, n: nat, on: Option<nat>)
    requires Valid(s) && path in s.files && k.redact(s.files[path]).Ok?
    ensures
      var s1 := Step(k, s, Setattr(path, Some(n), on)).0;
      var c := Holds(Step(k, s1, Open(path, false)).0, s.next);
      && c == Some(k.redact(s.files[path]).value)
      && (|c.value| == n <==> n == ViewSize(k, s.files[path]))
  {
    TruncateAnswer(k, s, path, n, on);
  }

  /** Flushing the truncated handle brings the truncation to the file: if the
      truncated bytes have a view, the handle and every new reader then hold
      that view; if they have none, the flush fails and the file and its new
      readers see nothing of it. */
  lemma TruncateThenFlush(k: Handler, s: State, n: nat, fh: nat)
    requires Lawful(k) && Valid(s) && Holds(s, fh).Some? && k.redact(s.files[s.handles[fh].file]).Ok?
    ensures
      var path, cut := s.handles[fh].file, PlainTruncate(Holds(s, fh).value, n);
      var s1 := Step(k, s, Setattr(path, Some(n), Some(fh))).0;
      var (s2, reply) := Step(k, s1, Flush(fh));
      var s3 := Step(k, s2, Open(path, false)).0;
      && (reply == Done <==> k.redact(cut).Ok?)
      && (k.redact(cut).Ok? ==> Holds(s3, s.next) == Holds(s3, fh) == Some(k.redact(cut).value))
      && (k.redact(cut).Err? ==> s2.files == s.files && Holds(s3, s.next) == Some(k.redact(s.files[path]).value))
  {
    var path, cut := s.handles[fh].file, PlainTruncate(Holds(s, fh).value, n);
    var s1 := Step(k, s, Setattr(path, Some(n), Some(fh))).0;
    TruncateAnswer(k, s, path, n, Some(fh));
    StepKeepsValid(k, s, Setattr(path, Some(n), Some(fh)));
    assert s1.handles[fh] == s.handles[fh].(pending := Some(cut)) by {
      ResizeIsPlain(Holds(s, fh).value, n);
    }
    PersistOutcome(k, s1, Flush(fh), fh);
    StepKeepsValid(k, s1, Flush(fh));
    var s2 := Step(k, s1, Flush(fh)).0;
    OpenStartsPlainFile(k, s2, path, false);
  }

  // ---- The real files: a fold of merges ----

  /** What one request did to the real files. */
  datatype Effect = Erase(path: Path) | Put(path: Path, buffer: seq<byte>)

  function PutBy(k: Handler, s: State, fh: nat): seq<Effect>
  {
    if fh in s.handles && s.handles[fh].Redacted? && s.handles[fh].pending.Some? && s.handles[fh].file in s.files
       && k.redact(s.files[s.handles[fh].file]).Ok? && k.redact(s.handles[fh].pending.value).Ok? then
      [Put(s.handles[fh].file, s.handles[fh].pending.value)]
    else []
  }

  function EffectsOf(k: Handler, s: State, r: Request): seq<Effect>
  {
    match r
    case Create(path, truncate) => if truncate || path !in s.files then [Erase(path)] else []
    case Flush(fh) => PutBy(k, s, fh)
    case Fsync(fh) => PutBy(k, s, fh)
    case Release(fh) => PutBy(k, s, fh)
    case _ => []
  }

  /** The buffers that were successfully persisted in a run, in order, with the
      files that were created empty. */
  function Log(k: Handler, s: State, rs: seq<Request>): seq<Effect>
  {
    if rs == [] then []
    else
      var front := rs[..|rs| - 1];
      Log(k, s, front) + EffectsOf(k, Run(k, s, front).0, rs[|rs| - 1])
  }

  function Apply(k: Handler, files: map<Path, seq<byte>>, e: Effect): map<Path, seq<byte>>
  {
    match e
    case Erase(path) => files[path := []]
    case Put(path, buffer) =>
      if path in files && k.merge(files[path], buffer).Ok? then files[path := k.merge(files[path], buffer).value] else files
  }

  function Fold(k: Handler, files: map<Path, seq<byte>>, es: seq<Effect>): map<Path, seq<byte>>
  {
    if es == [] then files else Apply(k, Fold(k, files, es[..|es| - 1]), es[|es| - 1])
  }

  lemma FoldSnoc(k: Handler, files: map<Path, seq<byte>>, es: seq<Effect>, more: seq<Effect>)
    requires |more| <= 1
    ensures Fold(k, files, es + more) == if more == [] then Fold(k, files, es) else Apply(k, Fold(k, files, es), more[0])
  {
    if more == [] {
      assert es + more == es;
    } else {
      assert (es + more)[..|es|] == es;
    }
  }

  lemma PersistMerges(k: Handler, s: State, fh: nat)
    requires Lawful(k) && Valid(s)
    ensures Persist(k, s, fh).0.files == Fold(k, s.files, PutBy(k, s, fh))
    ensures Persist(k, s, fh).1 == Done || (PutBy(k, s, fh) == [] && Persist(k, s, fh).0.files == s.files)
  {
    if fh in s.handles && s.handles[fh].Redacted? && s.handles[fh].pending.Some? {
      var h := s.handles[fh];
      var p := Put(h.file, h.pending.value);
      FoldOne(k, s.files, p);
    }
  }

  lemma FoldOne(k: Handler, files: map<Path, seq<byte>>, e: Effect)
    ensures Fold(k, files, [e]) == Apply(k, files, e)
  {
    assert [e][..0] == [];
  }

  lemma CreateMerges(k: Handler, s: State, path: Path, truncate: bool)
    ensures CreateStep(k, s, path, truncate).0.files == Fold(k, s.files, EffectsOf(k, s, Create(path, truncate)))
  {
    FoldOne(k, s.files, Erase(path));
  }

  lemma QuietStep(k: Handler, s: State, r: Request)
    requires !r.Create? && !r.Flush? && !r.Fsync? && !r.Release?
    ensures Step(k, s, r).0.files == s.files && EffectsOf(k, s, r) == []
  {}

  lemma StepMerges(k: Handler, s: State, r: Request)
    requires Lawful(k) && Valid(s)
    ensures Step(k, s, r).0.files == Fold(k, s.files, EffectsOf(k, s, r))
  {
    match r
    case Create(path, truncate) => CreateMerges(k, s, path, truncate);
    case Flush(fh) => PersistMerges(k, s, fh);
    case Fsync(fh) => PersistMerges(k, s, fh);
    case Release(fh) => PersistMerges(k, s, fh);
    case Getattr(_) => QuietStep(k, s, r);
    case Setattr(_, _, _) => QuietStep(k, s, r);
    case Open(_, _) => QuietStep(k, s, r);
    case Read(_, _, _) => QuietStep(k, s, r);
    case Write(_, _, _) => QuietStep(k, s, r);
  }

  /** After any run the real files are the initial ones with the successfully
      persisted buffers merged in, in order, and nothing else. */
  lemma {:induction false} FilesAreFoldOfMerges(k: Handler, s: State, rs: seq<Request>)
    requires Lawful(k) && Valid(s)
    ensures Valid(Run(k, s, rs).0)
    ensures Run(k, s, rs).0.files == Fold(k, s.files, Log(k, s, rs))
  {
    if rs != [] {
      var front, last := rs[..|rs| - 1], rs[|rs| - 1];
      FilesAreFoldOfMerges(k, s, front);
      var s1 := Run(k, s, front).0;
      StepKeepsValid(k, s1, last);
      StepMerges(k, s1, last);
      FoldSnoc(k, s.files, Log(k, s, front), EffectsOf(k, s1, last));
      FoldSnoc(k, s1.files, [], EffectsOf(k, s1, last));
      assert [] + EffectsOf(k, s1, last) == EffectsOf(k, s1, last);
    }
  }

  /** A second flush answers Done and changes nothing, whether the first one
      succeeded or failed. */
  lemma FlushTwice(k: Handler, s: State, fh: nat)
    ensures Step(k, Step(k, s, Flush(fh)).0, Flush(fh)) == (Step(k, s, Flush(fh)).0, Done)
  {}

  /** Flush, fsync and release of a handle with a buffer to persist: it fails
      exactly when the buffer or the real file has no view, and then no file
      changes and the handle, if still open, is back at what it served; when it
      succeeds the file is the merge, which new readers and the handle see as the
      view of the buffer. Release closes the handle in either case. */
  lemma PersistOutcome(k: Handler, s: State, r: Request, fh: nat)
    requires Lawful(k) && Valid(s) && EndsRound(r, fh) && Holds(s, fh).Some? && s.handles[fh].pending.Some?
    ensures
      var h, (s1, reply) := s.handles[fh], Step(k, s, r);
      var ok := k.redact(h.pending.value).Ok? && k.redact(s.files[h.file]).Ok?;
      && reply == (if ok then Done else Fail(EIO))
      && (!ok ==> s1.files == s.files && (!r.Release? ==> Holds(s1, fh) == Some(h.served)))
      && (ok ==> s1.files == s.files[h.file := k.merge(s.files[h.file], h.pending.value).value]
                 && k.redact(s1.files[h.file]) == k.redact(h.pending.value)
                 && (!r.Release? ==> Holds(s1, fh) == Some(k.redact(h.pending.value).value)))
      && (r.Release? ==> s1.handles == s.handles - {fh})
  {
    assert Persist(k, s, fh).0.handles - {fh} == s.handles - {fh};
  }

  /** With nothing to persist they answer Done and leave everything, but for the
      handle that release closes. */
  lemma NothingToPersist(k: Handler, s: State, r: Request, fh: nat)
    requires EndsRound(r, fh)
    requires fh !in s.handles || s.handles[fh].Failed? || s.handles[fh].pending.None?
    ensures Step(k, s, r) == (if r.Release? then s.(handles := s.handles - {fh}) else s, Done)
  {}

  /** Creating and closing without a write merges nothing into what the file
      held. */
  lemma CreateThenRelease(k: Handler, s: State, path: Path, truncate: bool)
    requires Lawful(k) && Valid(s)
    ensures
      var s1 := Step(k, s, Create(path, truncate)).0;
      var s2 := Step(k, s1, Release(s.next)).0;
      && path in s1.files && s2.handles == s.handles
      && s2.files == (if k.merge(s1.files[path], []).Ok? then s1.files[path := k.merge(s1.files[path], []).value] else s1.files)
  {
    CreateStartsEmpty(k, s, path, truncate);
    var s1 := Step(k, s, Create(path, truncate)).0;
    var s2 := Step(k, s1, Release(s.next)).0;
    assert s2.handles == s.handles;
  }

  lemma WholeSlice(c: seq<byte>, count: nat)
    requires count >= |c|
    ensures Slice(c, 0, count) == c && WriteInto(c, 0, c) == c
  {}

  lemma ReleaseMerges(k: Handler, s: State, fh: nat, merged: seq<byte>, view: seq<byte>)
    requires fh in s.handles && s.handles[fh].Redacted? && s.handles[fh].pending.Some?
    requires s.handles[fh].file in s.files
    requires k.merge(s.files[s.handles[fh].file], s.handles[fh].pending.value) == Ok(merged)
    requires k.redact(merged) == Ok(view)
    ensures Step(k, s, Release(fh)) ==
            (State(s.files[s.handles[fh].file := merged], s.handles - {fh}, s.next), Done)
  {
    var h := s.handles[fh];
    assert s.handles[fh := h.(served := view, pending := None)] - {fh} == s.handles - {fh};
  }

  /** Open, read everything, write it back, release: the real file becomes the
      merge of its own view. */
  lemma EditorRoundTrip(k: Handler, s: State, path: Path, count: nat)
    requires Lawful(k) && Valid(s) && path in s.files && k.redact(s.files[path]).Ok?
    requires count >= |k.redact(s.files[path]).value|
    requires k.redact(k.redact(s.files[path]).value) == k.redact(s.files[path])
    ensures
      var fh, view := s.next, k.redact(s.files[path]).value;
      var s1 := Step(k, s, Open(path, false)).0;
      && Step(k, s1, Read(fh, 0, count)).1 == Data(view)
      && k.merge(s.files[path], view).Ok?
      && Step(k, Step(k, s1, Write(fh, 0, view)).0, Release(fh))
         == (s.(files := s.files[path := k.merge(s.files[path], view).value], next := fh + 1), Done)
      && (s.files[path := k.merge(s.files[path], view).value] == s.files <==> k.merge(s.files[path], view) == Ok(s.files[path]))
  {
    var fh, view := s.next, k.redact(s.files[path]).value;
    WholeSlice(view, count);
    var s1 := Step(k, s, Open(path, false)).0;
    var s2 := Step(k, s1, Write(fh, 0, view)).0;
    assert s2.handles[fh] == Redacted(path, view, Some(view));
    assert k.merge(s.files[path], view).Ok?;
    ReleaseMerges(k, s2, fh, k.merge(s.files[path], view).value, view);
    assert s2.handles - {fh} == s.handles;
    var m := k.merge(s.files[path], view).value;
    assert s.files[path := m][path] == m;
    assert m == s.files[path] ==> s.files[path := m] == s.files;
  }
}
