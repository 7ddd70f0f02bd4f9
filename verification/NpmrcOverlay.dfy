/** The overlay with the `.npmrc` handler. */
module NpmrcOverlay {
  import opened Wrappers
  import opened Sequences
  import opened Utf8
  import opened Text
  import opened Npmrc
  import opened NpmrcLaws
  import opened Credentials
  import opened Overlay
  import OverlayLaws

  function NpmrcHandler(): Handler { Handler(Redact, Merge) }

  lemma NpmrcIsLawful()
    ensures Lawful(NpmrcHandler())
  {
    forall o, w
      ensures Merge(o, w).Ok? <==> Redact(o).Ok? && Redact(w).Ok?
      ensures Merge(o, w).Ok? ==> Redact(Merge(o, w).value) == Redact(w)
    {
      UpdateLaw(o, w);
    }
  }

  /** The same text lines up to the values of credential lines; or neither is
      text, and both are served as errors. */
  ghost predicate DifferInSecretsOnly(a: seq<byte>, b: seq<byte>)
  {
    if Decode(a).None? then Decode(b).None?
    else Decode(b).Some? && AlikeTexts(Decode(a).value, Decode(b).value)
  }

  /** Changing the credentials in any number of `.npmrc` files changes no reply
      to any program, ever. */
  lemma CredentialsStayHidden(a: map<Path, seq<byte>>, b: map<Path, seq<byte>>,
                              program: OverlayLaws.Program, n: nat)
    requires a.Keys == b.Keys
    requires forall p :: p in a ==> DifferInSecretsOnly(a[p], b[p])
    ensures OverlayLaws.RunProgram(NpmrcHandler(), State(a, map[], 1), program, n).1
         == OverlayLaws.RunProgram(NpmrcHandler(), State(b, map[], 1), program, n).1
  {
    var k := NpmrcHandler();
    NpmrcIsLawful();
    forall p | p in a
      ensures k.redact(a[p]) == k.redact(b[p])
    {
      assert DifferInSecretsOnly(a[p], b[p]);
      if Decode(a[p]).Some? {
        ServedAlike(a[p], b[p]);
      }
    }
    OverlayLaws.ProgramsIndependent(k, State(a, map[], 1), State(b, map[], 1), program, n);
  }

  lemma RoundTripHandler(k: Handler, o: seq<byte>)
    requires k == NpmrcHandler() && k.redact(o).Ok?
    ensures k.redact(k.redact(o).value) == k.redact(o)
    ensures Decode(o).Some? && (k.merge(o, k.redact(o).value) == Ok(o) <==> OneValuePerKey(Lines(Decode(o).value)))
  {
    RedactIdempotent(o);
    FileSurvives(o);
  }

  /** An editor that opens a file, reads it whole, writes the same bytes back
      and closes leaves the real files byte for byte as they were exactly when
      no key in the file has two values. */
  lemma EditorKeepsFile(k: Handler, s: State, path: Path, count: nat)
    requires k == NpmrcHandler()
    requires Valid(s) && path in s.files && k.redact(s.files[path]).Ok?
    requires count >= |k.redact(s.files[path]).value|
    ensures
      var fh, view := s.next, k.redact(s.files[path]).value;
      var s1 := Step(k, s, Open(path, false)).0;
      var (s3, reply) := Step(k, Step(k, s1, Write(fh, 0, view)).0, Release(fh));
      && Step(k, s1, Read(fh, 0, count)).1 == Data(view)
      && reply == Done
      && Decode(s.files[path]).Some?
      && (s3.files == s.files <==> OneValuePerKey(Lines(Decode(s.files[path]).value)))
  {
    NpmrcIsLawful();
    RoundTripHandler(k, s.files[path]);
    OverlayLaws.EditorRoundTrip(k, s, path, count);
  }

  // ---- Files created and truncated ----

  lemma NothingIsText()
    ensures Decode([]) == Some("") && Lines("") == [""] && Encode("") == []
  {
    DecodeEncode("");
    assert IndexOf("", '\n') == 0;
  }

  lemma MergeNothing(o: seq<byte>)
    ensures Merge(o, []) == if Decode(o).Some? then Ok([]) else Err
  {
    NothingIsText();
    if Decode(o).Some? {
      var secrets := Secrets(Lines(Decode(o).value));
      assert MergeLine(secrets, "") == "";
      assert MergeLines(secrets, [""]) == [""];
    }
  }

  /** A file created, over an existing one or not, and closed without a write
      ends up empty exactly when it was new, O_TRUNC was given, or what it held
      is text: creating over an existing file without O_TRUNC empties it too. */
  lemma CreateEmptiesFile(k: Handler, s: State, path: Path, truncate: bool)
    requires k == NpmrcHandler() && Valid(s)
    ensures
      var s1 := Step(k, s, Create(path, truncate)).0;
      var s2 := Step(k, s1, Release(s.next)).0;
      && path in s2.files
      && (s2.files[path] == [] <==> truncate || path !in s.files || Decode(s.files[path]).Some?)
      && (path in s.files ==>
            (s2.files == s.files <==> s.files[path] == [] || (!truncate && Decode(s.files[path]).None?)))
  {
    NpmrcIsLawful();
    NothingIsText();
    OverlayLaws.CreateStartsEmpty(k, s, path, truncate);
    OverlayLaws.CreateThenRelease(k, s, path, truncate);
    var s1 := Step(k, s, Create(path, truncate)).0;
    var s2 := Step(k, s1, Release(s.next)).0;
    MergeNothing(s1.files[path]);
    assert path in s.files ==> s.files[path := s.files[path]] == s.files;
    assert s2.files == s1.files || s2.files == s1.files[path := []];
    assert s2.files == s.files ==> path in s.files && s2.files[path] == s.files[path];
  }

  /** The file holding the one letter `a` is its own view. */
  lemma OneLetter() returns (o: seq<byte>)
    ensures o == [97] && Redact(o) == Ok(o)
  {
    o := Encode("a");
    DecodeEncode("a");
    NothingIsText();
    LinesJoin(["a"]);
    assert Join(["a"]) == "a";
    assert Classify("a").Plain?;
    assert RedactLines(["a"]) == ["a"];
  }

  lemma OwnView(k: Handler, path: Path, o: seq<byte>, s: State)
    requires k.redact(o) == Ok(o) && s == State(map[path := o], map[], 1)
    ensures Step(k, s, Setattr(path, Some(0), None)) == (s, Attr(|o|))
    ensures Step(k, Step(k, s, Open(path, false)).0, Read(1, 0, |o|)).1 == Data(o)
  {
    OverlayLaws.TruncateAnswer(k, s, path, 0, None);
    OverlayLaws.OpenStartsPlainFile(k, s, path, false);
    OverlayLaws.WholeSlice(o, |o|);
  }

  /** Truncating that file to nothing without naming a handle: the reply is the
      old size, nothing changes, and a new reader gets every byte. */
  lemma PathTruncationIgnored(k: Handler, path: Path) returns (o: seq<byte>, s: State)
    requires k == NpmrcHandler()
    ensures o == [97] && s == State(map[path := o], map[], 1)
    ensures Step(k, s, Setattr(path, Some(0), None)) == (s, Attr(1))
    ensures Step(k, Step(k, s, Open(path, false)).0, Read(1, 0, 1)).1 == Data(o)
  {
    o := OneLetter();
    s := State(map[path := o], map[], 1);
    OwnView(k, path, o, s);
  }
}
