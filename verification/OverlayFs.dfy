/** The overlay as the source writes it: an object whose maps and buffers the
    requests update, with files read and written through short transfers. Every
    method refines one step of the state machine in `Overlay`. */
module OverlayFs {
  import opened Wrappers
  import opened Overlay

  const READ_CHUNK := 8192

  class OverlayFs {
    const k: Handler
    var files: map<Path, seq<byte>>
    var handles: map<nat, Handle>
    var next: nat

    ghost function Abs(): State
      reads this
    {
      State(files, handles, next)
    }

    constructor (k: Handler, files: map<Path, seq<byte>>)
      ensures this.k == k && Abs() == State(files, map[], 1) && Valid(Abs())
    {
      this.k, this.files, this.handles, this.next := k, files, map[], 1;
    }

    // ---- System calls, with arbitrary non-zero short counts ----

    /** `pread`: nothing at or past the end, otherwise any non-empty part. */
    method Pread(path: Path, offset: nat) returns (chunk: seq<byte>)
      requires path in files
      ensures |chunk| <= READ_CHUNK
      ensures chunk == [] <==> offset >= |files[path]|
      ensures offset < |files[path]| ==>
                offset + |chunk| <= |files[path]| && chunk == files[path][offset..offset + |chunk|]
    {
      var content := files[path];
      if offset >= |content| {
        return [];
      }
      var n: nat :| 1 <= n <= READ_CHUNK && offset + n <= |content|;
      return content[offset..offset + n];
    }

    /** `pwrite`: any non-empty front part of `data` lands at `offset`. */
    method Pwrite(path: Path, data: seq<byte>, offset: nat) returns (n: nat)
      requires path in files && data != []
      modifies this`files
      ensures 1 <= n <= |data|
      ensures files == old(files)[path := WriteInto(old(files)[path], offset, data[..n])]
    {
      n :| 1 <= n <= |data|;
      files := files[path := WriteInto(files[path], offset, data[..n])];
    }

    /** `read_all`. */
    method ReadAll(path: Path) returns (out: seq<byte>)
      requires path in files
      ensures out == files[path]
    {
      out := [];
      var offset := 0;
      while true
        invariant offset == |out| <= |files[path]|
        invariant out == files[path][..offset]
        decreases |files[path]| - offset
      {
        var chunk := Pread(path, offset);
        if |chunk| == 0 {
          break;
        }
        out := out + chunk;
        offset := offset + |chunk|;
      }
    }

    /** `ftruncate` to 0, then `write_all_at`. */
    method Overwrite(path: Path, data: seq<byte>)
      requires path in files
      modifies this`files
      ensures files == old(files)[path := data]
    {
      files := files[path := []];
      var written := 0;
      while written < |data|
        invariant 0 <= written <= |data|
        invariant files == old(files)[path := data[..written]]
      {
        var n := Pwrite(path, data[written..], written);
        ghost var before := data[..written];
        assert data[written..][..n] == data[written..written + n];
        assert WriteInto(before, written, data[written..written + n]) == data[..written + n];
        written := written + n;
      }
      assert data[..|data|] == data;
    }

    // ---- Requests ----

    method AttrOf(path: Path) returns (reply: Reply)
      ensures reply == AttrReply(k, files, path)
    {
      if path !in files {
        return Fail(ENOENT);
      }
      var original := ReadAll(path);
      var view := k.redact(original);
      match view
      case Ok(bytes) => return Attr(|bytes|);
      case Err => return Attr(0);
    }

    method DoGetattr(path: Path) returns (reply: Reply)
      ensures (Abs(), reply) == Step(k, Abs(), Getattr(path))
    {
      reply := AttrOf(path);
    }

    method DoSetattr(path: Path, size: Option<nat>, on: Option<nat>) returns (reply: Reply)
      modifies this`handles
      ensures (Abs(), reply) == Step(k, old(Abs()), Setattr(path, size, on))
    {
      if size.Some? && on.Some? && on.value in handles {
        var h := handles[on.value];
        if h.Redacted? {
          var buf := if h.pending.Some? then h.pending.value else h.served;
          handles := handles[on.value := h.(pending := Some(Resize(buf, size.value)))];
          if path in files {
            return Attr(size.value);
          } else {
            return Fail(ENOENT);
          }
        }
      }
      if size.Some? && path in files {
        var original := ReadAll(path);
        if k.redact(original).Err? {
          return Fail(EIO);
        }
      }
      reply := AttrOf(path);
    }

    method DoOpen(path: Path, truncate: bool) returns (reply: Reply)
      modifies this`handles, this`next
      ensures (Abs(), reply) == Step(k, old(Abs()), Open(path, truncate))
    {
      if path !in files {
        return Fail(ENOENT);
      }
      var original := ReadAll(path);
      var view := k.redact(original);
      var h: Handle;
      match view {
        case Ok(served) =>
          var pending := None;
          if truncate {
            pending := Some([]);
          }
          h := Redacted(path, served, pending);
        case Err =>
          h := Failed;
      }
      var fh := InsertHandle(h);
      return Opened(fh);
    }

    method DoCreate(path: Path, truncate: bool) returns (reply: Reply)
      modifies this
      ensures (Abs(), reply) == Step(k, old(Abs()), Create(path, truncate))
    {
      if path !in files || truncate {
        files := files[path := []];
      }
      var fh := InsertHandle(Redacted(path, [], Some([])));
      var attr := AttrOf(path);
      return Created(attr.size, fh);
    }

    /** `Handles::insert`: the next number, never given out before. */
    method InsertHandle(h: Handle) returns (fh: nat)
      modifies this`handles, this`next
      ensures fh == old(next)
      ensures Abs() == Insert(old(Abs()), h)
    {
      fh := next;
      next := next + 1;
      handles := handles[fh := h];
    }

    method DoRead(fh: nat, offset: nat, count: nat) returns (reply: Reply)
      ensures (Abs(), reply) == Step(k, Abs(), Read(fh, offset, count))
    {
      if fh !in handles {
        return Fail(EBADF);
      }
      match handles[fh]
      case Redacted(_, served, pending) =>
        var bytes := if pending.Some? then pending.value else served;
        var start := Min(offset, |bytes|);
        var end := Min(start + count, |bytes|);
        return Data(bytes[start..end]);
      case Failed =>
        return Fail(EIO);
    }

    method DoWrite(fh: nat, offset: nat, data: seq<byte>) returns (reply: Reply)
      modifies this`handles
      ensures (Abs(), reply) == Step(k, old(Abs()), Write(fh, offset, data))
    {
      if fh !in handles {
        return Fail(EBADF);
      }
      var h := handles[fh];
      match h
      case Redacted(_, served, pending) =>
        var buf := if pending.Some? then pending.value else served;
        var end := offset + |data|;
        if |buf| < end {
          buf := Resize(buf, end);
        }
        buf := buf[..offset] + data + buf[end..];
        handles := handles[fh := h.(pending := Some(buf))];
        return Written(|data|);
      case Failed =>
        return Fail(EIO);
    }

    method DoPersist(fh: nat) returns (reply: Reply)
      requires Valid(Abs())
      modifies this`files, this`handles
      ensures (Abs(), reply) == Persist(k, old(Abs()), fh)
    {
      if fh !in handles || handles[fh].Failed? {
        return Done;
      }
      var h := handles[fh];
      if h.pending.None? {
        return Done;
      }
      var written := h.pending.value;
      h := h.(pending := None);
      handles := handles[fh := h];
      var original := ReadAll(h.file);
      var merged := k.merge(original, written);
      if merged.Err? {
        return Fail(EIO);
      }
      var view := k.redact(merged.value);
      if view.Err? {
        return Fail(EIO);
      }
      Overwrite(h.file, merged.value);
      h := h.(served := view.value);
      handles := handles[fh := h];
      assert handles == old(handles)[fh := h];
      return Done;
    }

    method DoFlush(fh: nat) returns (reply: Reply)
      requires Valid(Abs())
      modifies this`files, this`handles
      ensures (Abs(), reply) == Step(k, old(Abs()), Flush(fh))
    {
      reply := DoPersist(fh);
    }

    method DoRelease(fh: nat) returns (reply: Reply)
      requires Valid(Abs())
      modifies this`files, this`handles
      ensures (Abs(), reply) == Step(k, old(Abs()), Release(fh))
    {
      reply := DoPersist(fh);
      handles := handles - {fh};
    }

    /** Dispatch of one request; with it a list of requests is a run of the
        state machine. */
    method Serve(r: Request) returns (reply: Reply)
      requires Valid(Abs())
      modifies this
      ensures (Abs(), reply) == Step(k, old(Abs()), r)
      ensures Valid(Abs())
    {
      ghost var s := Abs();
      StepKeepsValid(k, s, r);
      match r
      case Getattr(path) => reply := DoGetattr(path);
      case Setattr(path, size, on) => reply := DoSetattr(path, size, on);
      case Open(path, truncate) => reply := DoOpen(path, truncate);
      case Create(path, truncate) => reply := DoCreate(path, truncate);
      case Read(fh, offset, count) => reply := DoRead(fh, offset, count);
      case Write(fh, offset, data) => reply := DoWrite(fh, offset, data);
      case Flush(fh) => reply := DoFlush(fh);
      case Fsync(fh) => reply := DoFlush(fh);
      case Release(fh) => reply := DoRelease(fh);
    }

    method ServeAll(rs: seq<Request>) returns (replies: seq<Reply>)
      requires Valid(Abs())
      modifies this
      ensures (Abs(), replies) == Run(k, old(Abs()), rs)
      ensures Valid(Abs())
    {
      replies := [];
      for i := 0 to |rs|
        invariant Valid(Abs())
        invariant (Abs(), replies) == Run(k, old(Abs()), rs[..i])
      {
        var reply := Serve(rs[i]);
        assert rs[..i + 1][..i] == rs[..i];
        replies := replies + [reply];
      }
      assert rs[..|rs|] == rs;
    }
  }
}
