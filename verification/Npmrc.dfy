/** The `.npmrc` handler of src/redact.rs: the redacted view of a file and the
    merge of an edited view back onto the original. */
module Npmrc {
  import opened Wrappers
  import opened Sequences
  import opened Utf8
  import opened Text

  const PLACEHOLDER := "<redacted value>"

  // ---- One line ----

  predicate IsComment(line: string)
  {
    var t := TrimStart(line);
    t != "" && (t[0] == '#' || t[0] == ';')
  }

  function NormKey(key: string): string { Lower(Trim(key)) }

  predicate IsSecretKey(key: string)
  {
    var k := NormKey(key);
    EndsWith(k, "_authtoken") || EndsWith(k, "_auth") || EndsWith(k, "_password")
  }

  /** `line.split_once('=')`. */
  function SplitOnce(line: string): Option<(string, string)>
  {
    var i := IndexOf(line, '=');
    if i == |line| then None else Some((line[..i], line[i + 1..]))
  }

  datatype LineKind = Secret(key: string, value: string) | Plain

  /** A credential line, cut at its first `=`, or any other line. */
  function Classify(line: string): LineKind
  {
    match SplitOnce(line)
    case Some((key, value)) =>
      if !IsComment(line) && IsSecretKey(key) then Secret(key, value) else Plain
    case None => Plain
  }

  function Assignment(key: string, value: string): string { key + "=" + value }

  function RedactLine(line: string): string
  {
    match Classify(line)
    case Secret(key, _) => Assignment(key, PLACEHOLDER)
    case Plain => line
  }

  function MergeLine(secrets: map<string, string>, line: string): string
  {
    match Classify(line)
    case Secret(key, value) =>
      if value == PLACEHOLDER && NormKey(key) in secrets then
        Assignment(key, secrets[NormKey(key)])
      else line
    case Plain => line
  }

  // ---- Whole texts ----

  function RedactLines(ls: seq<string>): (r: seq<string>)
  {
    seq(|ls|, i requires 0 <= i < |ls| => RedactLine(ls[i]))
  }

  function MergeLines(secrets: map<string, string>, ls: seq<string>): (r: seq<string>)
  {
    seq(|ls|, i requires 0 <= i < |ls| => MergeLine(secrets, ls[i]))
  }

  /** Normalised credential key to raw value; a later line wins. */
  function Secrets(ls: seq<string>): map<string, string>
  {
    if ls == [] then map[]
    else
      var m := Secrets(ls[..|ls| - 1]);
      match Classify(ls[|ls| - 1])
      case Secret(key, value) => m[NormKey(key) := value]
      case Plain => m
  }

  function RedactText(t: string): string { Join(RedactLines(Lines(t))) }

  function MergeText(o: string, w: string): string
  {
    Join(MergeLines(Secrets(Lines(o)), Lines(w)))
  }

  /** The view served for `original`; `Err` when it is not UTF-8. */
  function Redact(original: seq<byte>): (r: Result<seq<byte>>)
  {
    match Decode(original)
    case None => Err
    case Some(t) => Ok(Encode(RedactText(t)))
  }

  function Merge(original: seq<byte>, written: seq<byte>): (r: Result<seq<byte>>)
  {
    match Decode(original)
    case None => Err
    case Some(o) =>
      match Decode(written)
      case None => Err
      case Some(w) => Ok(Encode(MergeText(o, w)))
  }

  // ---- The loops of the source ----

  lemma RedactLinesGrow(ls: seq<string>, i: nat)
    requires i < |ls|
    ensures Join(RedactLines(ls[..i + 1])) ==
            if i == 0 then RedactLine(ls[0]) else Join(RedactLines(ls[..i])) + "\n" + RedactLine(ls[i])
  {
    var done, next := RedactLines(ls[..i]), RedactLine(ls[i]);
    assert RedactLines(ls[..i + 1]) == done + [next];
    if i > 0 {
      JoinSnoc(done, next);
    }
  }

  lemma MergeLinesGrow(secrets: map<string, string>, ls: seq<string>, i: nat)
    requires i < |ls|
    ensures Join(MergeLines(secrets, ls[..i + 1])) ==
            if i == 0 then MergeLine(secrets, ls[0])
            else Join(MergeLines(secrets, ls[..i])) + "\n" + MergeLine(secrets, ls[i])
  {
    var done, next := MergeLines(secrets, ls[..i]), MergeLine(secrets, ls[i]);
    assert MergeLines(secrets, ls[..i + 1]) == done + [next];
    if i > 0 {
      JoinSnoc(done, next);
    }
  }

  /** `redact_npmrc`: one pass over the lines, pushing onto `out`. */
  method RedactNpmrc(original: seq<byte>) returns (r: Result<seq<byte>>)
    ensures r == Redact(original)
  {
    var text := Decode(original);
    if text.None? {
      return Err;
    }
    var lines := Lines(text.value);
    var out := "";
    for i := 0 to |lines|
      invariant i == 0 ==> out == ""
      invariant i > 0 ==> out == Join(RedactLines(lines[..i]))
    {
      if i > 0 {
        out := out + "\n";
      }
      var next := RedactOneLine(lines[i]);
      out := out + next;
      RedactLinesGrow(lines, i);
    }
    assert lines[..|lines|] == lines;
    return Ok(Encode(out));
  }

  /** What the loop body of `redact_npmrc` pushes for one line. */
  method RedactOneLine(line: string) returns (pushed: string)
    ensures pushed == RedactLine(line)
  {
    var cut := SplitOnce(line);
    match cut
    case Some((key, value)) =>
      if !IsComment(line) && IsSecretKey(key) {
        return key + "=" + PLACEHOLDER;
      }
      return line;
    case None =>
      return line;
  }

  /** The first loop of `merge_npmrc`. */
  method CollectSecrets(lines: seq<string>) returns (secrets: map<string, string>)
    ensures secrets == Secrets(lines)
  {
    secrets := map[];
    for i := 0 to |lines|
      invariant secrets == Secrets(lines[..i])
    {
      assert lines[..i + 1][..i] == lines[..i];
      var line := lines[i];
      if IsComment(line) {
        continue;
      }
      var cut := SplitOnce(line);
      if cut.Some? && IsSecretKey(cut.value.0) {
        secrets := secrets[NormKey(cut.value.0) := cut.value.1];
      }
    }
    assert lines[..|lines|] == lines;
  }

  /** `merge_npmrc`. */
  method MergeNpmrc(original: seq<byte>, written: seq<byte>) returns (r: Result<seq<byte>>)
    ensures r == Merge(original, written)
  {
    var orig := Decode(original);
    if orig.None? {
      return Err;
    }
    var writ := Decode(written);
    if writ.None? {
      return Err;
    }
    var secrets := CollectSecrets(Lines(orig.value));
    var out := MergeAll(secrets, Lines(writ.value));
    return Ok(Encode(out));
  }

  /** The second loop of `merge_npmrc`. */
  method MergeAll(secrets: map<string, string>, lines: seq<string>) returns (out: string)
    requires |lines| >= 1
    ensures out == Join(MergeLines(secrets, lines))
  {
    out := "";
    for i := 0 to |lines|
      invariant i == 0 ==> out == ""
      invariant i > 0 ==> out == Join(MergeLines(secrets, lines[..i]))
    {
      if i > 0 {
        out := out + "\n";
      }
      var next := MergeOneLine(secrets, lines[i]);
      out := out + next;
      MergeLinesGrow(secrets, lines, i);
    }
    assert lines[..|lines|] == lines;
  }

  /** What the body of the second loop pushes for one line. */
  method MergeOneLine(secrets: map<string, string>, line: string) returns (pushed: string)
    ensures pushed == MergeLine(secrets, line)
  {
    if IsComment(line) {
      return line;
    }
    var cut := SplitOnce(line);
    match cut
    case Some((key, value)) =>
      if IsSecretKey(key) {
        if value == PLACEHOLDER {
          if NormKey(key) in secrets {
            return key + "=" + secrets[NormKey(key)];
          }
        }
        return line;
      }
      return line;
    case None =>
      return line;
  }
}
