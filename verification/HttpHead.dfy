/** Cutting the request head out of the client's byte stream
    (the head-reading loop of src/mitm/proxy.rs). */
module HttpHead {
  import opened Wrappers

  const CR: byte := 13
  const LF: byte := 10
  const CRLF: seq<byte> := [CR, LF]
  const HEAD_LIMIT: nat := 64 * 1024
  const READ_SIZE: nat := 4096

  /** The blank line ending a head stands just before index `e`. */
  predicate EndsAt(buf: seq<byte>, e: nat)
  {
    4 <= e <= |buf| && buf[e - 4..e] == [CR, LF, CR, LF]
  }

  function FindFrom(buf: seq<byte>, p: nat): Option<nat>
    decreases |buf| - p
  {
    if p + 4 > |buf| then None
    else if buf[p..p + 4] == [CR, LF, CR, LF] then Some(p + 4)
    else FindFrom(buf, p + 1)
  }

  /** `find_headers_end`. */
  function FindHeadersEnd(buf: seq<byte>): (r: Option<nat>) { FindFrom(buf, 0) }

  ghost predicate IsFirstEnd(buf: seq<byte>, e: nat)
  {
    EndsAt(buf, e) && forall d: nat :: d < e ==> !EndsAt(buf, d)
  }

  lemma {:induction false} FindFromFirst(buf: seq<byte>, p: nat)
    requires forall d: nat :: d < p + 4 ==> !EndsAt(buf, d)
    ensures FindFrom(buf, p).None? ==> forall d: nat :: !EndsAt(buf, d)
    ensures FindFrom(buf, p).Some? ==> IsFirstEnd(buf, FindFrom(buf, p).value)
    decreases |buf| - p
  {
    if p + 4 <= |buf| && buf[p..p + 4] != [CR, LF, CR, LF] {
      assert !EndsAt(buf, p + 4);
      FindFromFirst(buf, p + 1);
    }
  }

  /** The end found is the first there is, and none is found only if there is
      none. */
  lemma FindIsFirst(buf: seq<byte>)
    ensures FindHeadersEnd(buf).None? <==> forall d: nat :: !EndsAt(buf, d)
    ensures forall e: nat :: FindHeadersEnd(buf) == Some(e) <==> IsFirstEnd(buf, e)
  {
    FindFromFirst(buf, 0);
  }

  lemma EndsAtPrefix(a: seq<byte>, b: seq<byte>, e: nat)
    requires a <= b && e <= |a|
    ensures EndsAt(a, e) <==> EndsAt(b, e)
  {
    if 4 <= e {
      assert a[e - 4..e] == b[e - 4..e];
    }
  }

  /** Reading on does not move an end already found, and finds no earlier one. */
  lemma FindInPrefix(a: seq<byte>, b: seq<byte>)
    requires a <= b
    ensures FindHeadersEnd(a).Some? ==> FindHeadersEnd(b) == FindHeadersEnd(a)
    ensures FindHeadersEnd(b).Some? && FindHeadersEnd(b).value <= |a| ==> FindHeadersEnd(a) == FindHeadersEnd(b)
  {
    FindIsFirst(a);
    FindIsFirst(b);
    forall e: nat | e <= |a| ensures EndsAt(a, e) <==> EndsAt(b, e) {
      EndsAtPrefix(a, b, e);
    }
    if FindHeadersEnd(a).Some? {
      assert IsFirstEnd(b, FindHeadersEnd(a).value);
    }
    if FindHeadersEnd(b).Some? && FindHeadersEnd(b).value <= |a| {
      assert IsFirstEnd(a, FindHeadersEnd(b).value);
    }
  }

  // ---- The loop ----

  function Flat(chunks: seq<seq<byte>>): seq<byte>
  {
    if chunks == [] then [] else Flat(chunks[..|chunks| - 1]) + chunks[|chunks| - 1]
  }

  lemma {:induction false} FlatPrefix(chunks: seq<seq<byte>>, k: nat)
    requires k <= |chunks|
    ensures Flat(chunks[..k]) <= Flat(chunks)
  {
    if k == |chunks| {
      assert chunks[..k] == chunks;
    } else {
      var front := chunks[..|chunks| - 1];
      assert front[..k] == chunks[..k];
      FlatPrefix(front, k);
    }
  }

  datatype HeadResult = Head(buf: seq<byte>, end: nat) | ClosedEarly | TooLarge

  /** Each read delivers between 1 and READ_SIZE bytes. */
  predicate Reads(chunks: seq<seq<byte>>)
  {
    forall i :: 0 <= i < |chunks| ==> 1 <= |chunks[i]| <= READ_SIZE
  }

  /** The head of the stream ends inside the `k`th read, and no more than the
      limit had been read before. */
  ghost predicate AcceptedAt(chunks: seq<seq<byte>>, k: nat)
  {
    && 0 < k <= |chunks|
    && |Flat(chunks[..k - 1])| <= HEAD_LIMIT
    && FindHeadersEnd(Flat(chunks)).Some?
    && |Flat(chunks[..k - 1])| < FindHeadersEnd(Flat(chunks)).value <= |Flat(chunks[..k])|
  }

  /** Some read accepts: the loop ends with a head. */
  ghost predicate Accepts(chunks: seq<seq<byte>>)
  {
    exists k: nat :: AcceptedAt(chunks, k)
  }

  /** `bytes` are those of all reads up to the accepting one. */
  ghost predicate ReadSoFar(chunks: seq<seq<byte>>, bytes: seq<byte>)
  {
    exists k: nat :: AcceptedAt(chunks, k) && bytes == Flat(chunks[..k])
  }

  /** What the reading loop promises about its result on these reads. */
  ghost predicate CutsHead(chunks: seq<seq<byte>>, r: HeadResult)
  {
    && (r.Head? <==> Accepts(chunks))
    && (r.Head? ==> FindHeadersEnd(Flat(chunks)) == Some(r.end) && r.end <= |r.buf|
                    && ReadSoFar(chunks, r.buf) && |r.buf| <= HEAD_LIMIT + READ_SIZE)
    && (r.ClosedEarly? <==> FindHeadersEnd(Flat(chunks)).None? && |Flat(chunks)| <= HEAD_LIMIT)
  }

  /** The reading loop of `handle_conn`, on a client that sends `chunks` and
      then closes. However the stream is split into reads, the cut is at its
      first blank line, every head within the limit and one byte is taken, and
      the buffer is all that was read, at most the limit plus one read. */
  method ReadHead(chunks: seq<seq<byte>>) returns (r: HeadResult)
    requires Reads(chunks)
    ensures CutsHead(chunks, r)
    ensures FindHeadersEnd(Flat(chunks)).Some? && FindHeadersEnd(Flat(chunks)).value <= HEAD_LIMIT + 1 ==> r.Head?
  {
    var buf: seq<byte> := [];
    var i := 0;
    while true
      invariant 0 <= i <= |chunks| && buf == Flat(chunks[..i])
      invariant FindHeadersEnd(buf).None? && |buf| <= HEAD_LIMIT
      decreases |chunks| - i
    {
      FlatPrefix(chunks, i);
      FindInPrefix(buf, Flat(chunks));
      if i == |chunks| {
        assert chunks[..i] == chunks;
        forall k: nat ensures !AcceptedAt(chunks, k) {}
        return ClosedEarly;
      }
      ghost var before := buf;
      buf := buf + chunks[i];
      i := i + 1;
      assert chunks[..i][..i - 1] == chunks[..i - 1];
      FlatPrefix(chunks, i);
      FindInPrefix(buf, Flat(chunks));
      var pos := FindHeadersEnd(buf);
      if pos.Some? {
        FindIsFirst(buf);
        assert AcceptedAt(chunks, i) && buf == Flat(chunks[..i]);
        return Head(buf, pos.value);
      }
      if |buf| > HEAD_LIMIT {
        forall k: nat ensures !AcceptedAt(chunks, k) {
          NotAccepted(chunks, i, k);
        }
        return TooLarge;
      }
    }
  }

  /** Once more than the limit was read without an end, no read accepts. */
  lemma NotAccepted(chunks: seq<seq<byte>>, i: nat, k: nat)
    requires i <= |chunks| && FindHeadersEnd(Flat(chunks[..i])).None? && |Flat(chunks[..i])| > HEAD_LIMIT
    ensures !AcceptedAt(chunks, k)
  {
    if 0 < k <= |chunks| {
      if k <= i {
        assert chunks[..i][..k] == chunks[..k];
        FlatPrefix(chunks[..i], k);
        FlatPrefix(chunks, i);
        FindInPrefix(Flat(chunks[..i]), Flat(chunks));
      } else {
        assert chunks[..k - 1][..i] == chunks[..i];
        FlatPrefix(chunks[..k - 1], i);
      }
    }
  }

  /** The accepting read is determined, so what was read so far is too. */
  lemma ReadSoFarIsUnique(chunks: seq<seq<byte>>, a: seq<byte>, b: seq<byte>)
    requires ReadSoFar(chunks, a) && ReadSoFar(chunks, b)
    ensures a == b
  {
    var k: nat :| AcceptedAt(chunks, k) && a == Flat(chunks[..k]);
    var j: nat :| AcceptedAt(chunks, j) && b == Flat(chunks[..j]);
    if k < j {
      assert chunks[..j - 1][..k] == chunks[..k];
      FlatPrefix(chunks[..j - 1], k);
    } else if j < k {
      assert chunks[..k - 1][..j] == chunks[..j];
      FlatPrefix(chunks[..k - 1], j);
    }
  }

  // ---- When the split into reads decides ----

  predicate Splits(s: seq<byte>, chunks: seq<seq<byte>>)
  {
    Reads(chunks) && Flat(chunks) == s
  }

  lemma {:induction false} FlatConcat(a: seq<seq<byte>>, b: seq<seq<byte>>)
    ensures Flat(a + b) == Flat(a) + Flat(b)
  {
    if b == [] {
      assert a + b == a;
    } else {
      assert (a + b)[..|a + b| - 1] == a + b[..|b| - 1];
      FlatConcat(a, b[..|b| - 1]);
    }
  }

  /** One read for every byte. */
  function Singles(s: seq<byte>): seq<seq<byte>>
  {
    seq(|s|, i requires 0 <= i < |s| => [s[i]])
  }

  lemma {:induction false} SinglesSplit(s: seq<byte>)
    ensures Splits(s, Singles(s))
  {
    if s != [] {
      var n := |s| - 1;
      assert Singles(s)[..n] == Singles(s[..n]);
      SinglesSplit(s[..n]);
      assert s == s[..n] + [s[n]];
    }
  }

  /** The read in which byte `e` arrives. */
  lemma {:induction false} ReadOf(chunks: seq<seq<byte>>, e: nat) returns (k: nat)
    requires 0 < e <= |Flat(chunks)|
    ensures 0 < k <= |chunks| && |Flat(chunks[..k - 1])| < e <= |Flat(chunks[..k])|
  {
    var n := |chunks| - 1;
    if e <= |Flat(chunks[..n])| {
      k := ReadOf(chunks[..n], e);
      assert chunks[..n][..k] == chunks[..k] && chunks[..n][..k - 1] == chunks[..k - 1];
    } else {
      k := n + 1;
      assert chunks[..k] == chunks;
    }
  }

  lemma ShortHeadAccepted(s: seq<byte>, e: nat, chunks: seq<seq<byte>>)
    requires FindHeadersEnd(s) == Some(e) && e <= HEAD_LIMIT + 1 && Splits(s, chunks)
    ensures Accepts(chunks)
  {
    FindIsFirst(s);
    var k := ReadOf(chunks, e);
    assert AcceptedAt(chunks, k);
  }

  lemma VeryLongHeadRefused(s: seq<byte>, e: nat, chunks: seq<seq<byte>>)
    requires FindHeadersEnd(s) == Some(e) && e > HEAD_LIMIT + READ_SIZE && Splits(s, chunks)
    ensures !Accepts(chunks)
  {
    forall k: nat ensures !AcceptedAt(chunks, k) {
      if 0 < k <= |chunks| {
        assert chunks[..k][..k - 1] == chunks[..k - 1];
      }
    }
  }

  /** Single bytes up to `m`, from there to `e` in one read, then the rest. */
  function LuckyReads(s: seq<byte>, m: nat, e: nat): seq<seq<byte>>
    requires m <= e <= |s|
  {
    Singles(s[..m]) + [s[m..e]] + Singles(s[e..])
  }

  lemma LuckyReadsSplit(s: seq<byte>, m: nat, e: nat)
    requires m < e <= m + READ_SIZE && e <= |s|
    ensures Splits(s, LuckyReads(s, m, e)) && Flat(Singles(s[..m])) == s[..m]
  {
    SinglesSplit(s[..m]);
    SinglesSplit(s[e..]);
    FlatOne(s[m..e]);
    SplitsConcat(s[..m], Singles(s[..m]), s[m..e], [s[m..e]]);
    assert s[..m] + s[m..e] == s[..e];
    SplitsConcat(s[..e], Singles(s[..m]) + [s[m..e]], s[e..], Singles(s[e..]));
    assert s[..e] + s[e..] == s;
  }

  lemma SplitsConcat(s: seq<byte>, a: seq<seq<byte>>, t: seq<byte>, b: seq<seq<byte>>)
    requires Splits(s, a) && Splits(t, b)
    ensures Splits(s + t, a + b)
  {
    FlatConcat(a, b);
  }

  lemma FlatOne(chunk: seq<byte>)
    ensures Flat([chunk]) == chunk
  {
    assert [chunk][..0] == [];
  }

  lemma LuckyReadAccepts(front: seq<seq<byte>>, next: seq<byte>, rest: seq<seq<byte>>)
    requires |Flat(front)| <= HEAD_LIMIT && next != []
    requires FindHeadersEnd(Flat(front + [next] + rest)) == Some(|Flat(front)| + |next|)
    ensures Accepts(front + [next] + rest)
  {
    var all, k := front + [next] + rest, |front| + 1;
    assert all[..k - 1] == front && all[..k] == front + [next];
    FlatOne(next);
    FlatConcat(front, [next]);
    assert AcceptedAt(all, k);
  }

  lemma SinglesRefused(s: seq<byte>, e: nat)
    requires FindHeadersEnd(s) == Some(e) && HEAD_LIMIT + 1 < e <= |s|
    ensures !Accepts(Singles(s))
  {
    var i, all := HEAD_LIMIT + 1, Singles(s);
    assert all[..i] == Singles(s[..i]);
    SinglesSplit(s[..i]);
    FindInPrefix(s[..i], s);
    FindIsFirst(s[..i]);
    forall k: nat ensures !AcceptedAt(all, k) {
      NotAccepted(all, i, k);
    }
  }

  /** A head of up to one byte more than the limit is accepted however it
      arrives, one longer than the limit and a full read never; in between, and
      only there, some splits into reads are accepted and some are refused. */
  lemma LongHeadDependsOnReads(s: seq<byte>, e: nat)
    requires FindHeadersEnd(s) == Some(e)
    ensures (forall a :: Splits(s, a) ==> Accepts(a)) <==> e <= 65536 + 1
    ensures (forall a :: Splits(s, a) ==> !Accepts(a)) <==> e > 65536 + 4096
    ensures ((exists a :: Splits(s, a) && Accepts(a)) && (exists b :: Splits(s, b) && !Accepts(b)))
            <==> 65536 + 1 < e <= 65536 + 4096
  {
    FindIsFirst(s);
    SinglesSplit(s);
    if e <= HEAD_LIMIT + 1 {
      forall a | Splits(s, a) ensures Accepts(a) {
        ShortHeadAccepted(s, e, a);
      }
    } else {
      SinglesRefused(s, e);
    }
    if e > HEAD_LIMIT + READ_SIZE {
      forall a | Splits(s, a) ensures !Accepts(a) {
        VeryLongHeadRefused(s, e, a);
      }
    } else if e > HEAD_LIMIT {
      var m := HEAD_LIMIT;
      LuckyReadsSplit(s, m, e);
      LuckyReadAccepts(Singles(s[..m]), s[m..e], Singles(s[e..]));
    }
  }
}
