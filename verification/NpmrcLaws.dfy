/** The laws that make redaction and merge a view/update pair. */
module NpmrcLaws {
  import opened Wrappers
  import opened Sequences
  import opened Utf8
  import opened Text
  import opened Npmrc

  // ---- One line: the value of a credential line is irrelevant to its shape ----

  lemma {:induction false} CommentIgnoresValue(key: string, v: string, w: string)
    ensures IsComment(Assignment(key, v)) == IsComment(Assignment(key, w))
  {
    if key != "" && IsWhitespace(key[0]) {
      CommentIgnoresValue(key[1..], v, w);
      assert Assignment(key, v)[1..] == Assignment(key[1..], v);
      assert Assignment(key, w)[1..] == Assignment(key[1..], w);
    } else {
      assert Assignment(key, v)[0] == Assignment(key, w)[0];
    }
  }

  lemma SplitAssignment(key: string, value: string)
    requires '=' !in key
    ensures SplitOnce(Assignment(key, value)) == Some((key, value))
  {
    var line := Assignment(key, value);
    assert line[..|key|] == key;
    assert line[|key| + 1..] == value;
    IndexOfIs(line, '=', |key|);
  }

  lemma SecretParts(line: string)
    requires Classify(line).Secret?
    ensures '=' !in Classify(line).key
    ensures line == Assignment(Classify(line).key, Classify(line).value)
  {}

  /** Replacing the value keeps the line a credential line of the same key. */
  lemma ClassifyAssignment(line: string, value: string)
    requires Classify(line).Secret?
    ensures Classify(Assignment(Classify(line).key, value)) == Secret(Classify(line).key, value)
  {
    SecretParts(line);
    var Secret(key, v) := Classify(line);
    SplitAssignment(key, value);
    CommentIgnoresValue(key, v, value);
  }

  lemma RedactLineIdempotent(line: string)
    ensures RedactLine(RedactLine(line)) == RedactLine(line)
  {
    if Classify(line).Secret? {
      ClassifyAssignment(line, PLACEHOLDER);
    }
  }

  lemma RedactMergeLine(secrets: map<string, string>, line: string)
    ensures RedactLine(MergeLine(secrets, line)) == RedactLine(line)
  {
    if MergeLine(secrets, line) != line {
      ClassifyAssignment(line, secrets[NormKey(Classify(line).key)]);
    }
  }

  lemma MergeLineStable(secrets: map<string, string>, line: string)
    ensures MergeLine(secrets, MergeLine(secrets, line)) == MergeLine(secrets, line)
  {
    if MergeLine(secrets, line) != line {
      ClassifyAssignment(line, secrets[NormKey(Classify(line).key)]);
    }
  }

  lemma RedactLinesIdempotent(ls: seq<string>)
    ensures RedactLines(RedactLines(ls)) == RedactLines(ls)
  {
    forall i | 0 <= i < |ls| ensures RedactLine(RedactLine(ls[i])) == RedactLine(ls[i]) {
      RedactLineIdempotent(ls[i]);
    }
  }

  lemma RedactMergeLines(secrets: map<string, string>, ls: seq<string>)
    ensures RedactLines(MergeLines(secrets, ls)) == RedactLines(ls)
  {
    forall i | 0 <= i < |ls| ensures RedactLine(MergeLine(secrets, ls[i])) == RedactLine(ls[i]) {
      RedactMergeLine(secrets, ls[i]);
    }
  }

  lemma MergeLinesStable(secrets: map<string, string>, ls: seq<string>)
    ensures MergeLines(secrets, MergeLines(secrets, ls)) == MergeLines(secrets, ls)
  {
    forall i | 0 <= i < |ls| ensures MergeLine(secrets, MergeLine(secrets, ls[i])) == MergeLine(secrets, ls[i]) {
      MergeLineStable(secrets, ls[i]);
    }
  }

  predicate SameButValue(a: string, b: string)
  {
    || a == b
    || (Classify(a).Secret? && Classify(b).Secret? && Classify(a).key == Classify(b).key)
  }

  lemma RedactLineKernel(a: string, b: string)
    ensures RedactLine(a) == RedactLine(b) <==> SameButValue(a, b)
  {
    if Classify(a).Secret? {
      ClassifyAssignment(a, PLACEHOLDER);
    }
    if Classify(b).Secret? {
      ClassifyAssignment(b, PLACEHOLDER);
    }
  }

  // ---- Line structure ----

  lemma RedactNewlineFree(ls: seq<string>)
    requires NewlineFree(ls)
    ensures NewlineFree(RedactLines(ls))
  {
    forall i | 0 <= i < |ls|
      ensures '\n' !in RedactLines(ls)[i]
    {
      if Classify(ls[i]).Secret? {
        SecretParts(ls[i]);
      }
    }
  }

  lemma {:induction false} SecretsNewlineFree(ls: seq<string>)
    requires NewlineFree(ls)
    ensures forall k :: k in Secrets(ls) ==> '\n' !in Secrets(ls)[k]
  {
    if ls != [] {
      SecretsNewlineFree(ls[..|ls| - 1]);
      if Classify(ls[|ls| - 1]).Secret? {
        SecretParts(ls[|ls| - 1]);
      }
    }
  }

  lemma MergeNewlineFree(secrets: map<string, string>, ls: seq<string>)
    requires NewlineFree(ls)
    requires forall k :: k in secrets ==> '\n' !in secrets[k]
    ensures NewlineFree(MergeLines(secrets, ls))
  {
    forall i | 0 <= i < |ls|
      ensures '\n' !in MergeLines(secrets, ls)[i]
    {
      if Classify(ls[i]).Secret? {
        SecretParts(ls[i]);
      }
    }
  }

  lemma LinesOfRedact(t: string)
    ensures Lines(RedactText(t)) == RedactLines(Lines(t))
  {
    LinesNewlineFree(t);
    RedactNewlineFree(Lines(t));
    LinesJoin(RedactLines(Lines(t)));
  }

  /** Restoring a secret neither splits nor joins lines. */
  lemma LinesOfMerge(o: string, w: string)
    ensures Lines(MergeText(o, w)) == MergeLines(Secrets(Lines(o)), Lines(w))
  {
    LinesNewlineFree(o);
    LinesNewlineFree(w);
    SecretsNewlineFree(Lines(o));
    MergeNewlineFree(Secrets(Lines(o)), Lines(w));
    LinesJoin(MergeLines(Secrets(Lines(o)), Lines(w)));
  }

  /** Texts are determined by their lines. */
  lemma SameLines(a: string, b: string)
    ensures Lines(a) == Lines(b) ==> a == b
  {
    JoinLines(a);
    JoinLines(b);
  }

  // ---- The map of secrets ----

  predicate IsSecretFor(line: string, k: string)
  {
    Classify(line).Secret? && NormKey(Classify(line).key) == k
  }

  predicate IsLastFor(ls: seq<string>, k: string, i: int)
  {
    && 0 <= i < |ls|
    && IsSecretFor(ls[i], k)
    && forall j :: i < j < |ls| ==> !IsSecretFor(ls[j], k)
  }

  lemma SecretsStep(ls: seq<string>, k: string)
    requires ls != []
    ensures
      var front, last := ls[..|ls| - 1], ls[|ls| - 1];
      && (k in Secrets(ls) <==> IsSecretFor(last, k) || k in Secrets(front))
      && (IsSecretFor(last, k) ==> Secrets(ls)[k] == Classify(last).value)
      && (!IsSecretFor(last, k) && k in Secrets(front) ==> Secrets(ls)[k] == Secrets(front)[k])
  {}

  lemma {:induction false} SecretsKnown(ls: seq<string>, k: string)
    ensures k in Secrets(ls) <==> exists i :: 0 <= i < |ls| && IsSecretFor(ls[i], k)
  {
    if ls != [] {
      var n := |ls| - 1;
      SecretsKnown(ls[..n], k);
      SecretsStep(ls, k);
      assert forall i :: 0 <= i < n ==> ls[i] == ls[..n][i];
    }
  }

  lemma {:induction false} SecretsLast(ls: seq<string>, k: string, i: nat)
    requires IsLastFor(ls, k, i)
    ensures k in Secrets(ls) && Secrets(ls)[k] == Classify(ls[i]).value
  {
    SecretsStep(ls, k);
    if i < |ls| - 1 {
      SecretsLast(ls[..|ls| - 1], k, i);
    }
  }

  /** The key is known exactly when some credential line carries it, and its
      value is that of the last such line. */
  lemma SecretsAreLastValues(ls: seq<string>, k: string)
    ensures k in Secrets(ls) <==> exists i :: 0 <= i < |ls| && IsSecretFor(ls[i], k)
    ensures forall i :: IsLastFor(ls, k, i) ==> k in Secrets(ls) && Secrets(ls)[k] == Classify(ls[i]).value
  {
    SecretsKnown(ls, k);
    forall i | IsLastFor(ls, k, i)
      ensures k in Secrets(ls) && Secrets(ls)[k] == Classify(ls[i]).value
    {
      SecretsLast(ls, k, i);
    }
  }

  // ---- Theorems on texts ----

  /** All credential lines under one normalised key carry one value. */
  predicate Consistent(ls: seq<string>)
  {
    forall i, j :: 0 <= i < |ls| && 0 <= j < |ls| && Classify(ls[i]).Secret? && Classify(ls[j]).Secret?
        && NormKey(Classify(ls[i]).key) == NormKey(Classify(ls[j]).key)
        ==> Classify(ls[i]).value == Classify(ls[j]).value
  }

  lemma {:induction false} LastFor(ls: seq<string>, k: string, from: nat) returns (i: nat)
    requires from < |ls| && IsSecretFor(ls[from], k)
    ensures IsLastFor(ls, k, i) && from <= i
    decreases |ls| - from
  {
    if j :| from < j < |ls| && IsSecretFor(ls[j], k) {
      i := LastFor(ls, k, j);
    } else {
      i := from;
    }
  }

  /** Merging the untouched view back gives line `i` its value again exactly
      when that value is the one recorded for its key. */
  lemma RestoreLine(ls: seq<string>, i: nat)
    requires i < |ls|
    ensures Classify(ls[i]).Plain? ==> MergeLine(Secrets(ls), RedactLine(ls[i])) == ls[i]
    ensures Classify(ls[i]).Secret? ==>
              var k := NormKey(Classify(ls[i]).key);
              && k in Secrets(ls)
              && (MergeLine(Secrets(ls), RedactLine(ls[i])) == ls[i] <==> Secrets(ls)[k] == Classify(ls[i]).value)
  {
    if Classify(ls[i]).Secret? {
      var Secret(key, value) := Classify(ls[i]);
      var k := NormKey(key);
      SecretParts(ls[i]);
      ClassifyAssignment(ls[i], PLACEHOLDER);
      assert IsSecretFor(ls[i], k);
      SecretsAreLastValues(ls, k);
      SplitAssignment(key, Secrets(ls)[k]);
      SplitAssignment(key, value);
    }
  }

  lemma RoundTripLines(ls: seq<string>)
    ensures MergeLines(Secrets(ls), RedactLines(ls)) == ls <==> Consistent(ls)
  {
    var merged := MergeLines(Secrets(ls), RedactLines(ls));
    assert |merged| == |ls|;
    if Consistent(ls) {
      forall i | 0 <= i < |ls|
        ensures merged[i] == ls[i]
      {
        RestoreLine(ls, i);
        if Classify(ls[i]).Secret? {
          var k := NormKey(Classify(ls[i]).key);
          assert IsSecretFor(ls[i], k);
          var last := LastFor(ls, k, i);
          SecretsAreLastValues(ls, k);
        }
      }
    }
    if merged == ls {
      forall i, j | 0 <= i < |ls| && 0 <= j < |ls| && Classify(ls[i]).Secret? && Classify(ls[j]).Secret?
          && NormKey(Classify(ls[i]).key) == NormKey(Classify(ls[j]).key)
        ensures Classify(ls[i]).value == Classify(ls[j]).value
      {
        RestoreLine(ls, i);
        RestoreLine(ls, j);
        assert merged[i] == ls[i] && merged[j] == ls[j];
      }
    }
  }

  // ---- Theorems on bytes ----

  lemma RedactedDecodes(original: seq<byte>)
    requires Redact(original).Ok?
    ensures Decode(Redact(original).value) == Some(RedactText(Decode(original).value))
  {
    DecodeEncode(RedactText(Decode(original).value));
  }

  lemma MergedDecodes(o: seq<byte>, w: seq<byte>)
    requires Merge(o, w).Ok?
    ensures Decode(Merge(o, w).value) == Some(MergeText(Decode(o).value, Decode(w).value))
  {
    DecodeEncode(MergeText(Decode(o).value, Decode(w).value));
  }

  /** A merge succeeds exactly when both sides have a view, and the view of what
      it stores is the view of what the program wrote, whatever the original. */
  lemma UpdateLaw(o: seq<byte>, w: seq<byte>)
    ensures Merge(o, w).Ok? <==> Redact(o).Ok? && Redact(w).Ok?
    ensures Merge(o, w).Ok? ==> Redact(Merge(o, w).value) == Redact(w)
  {
    if Merge(o, w).Ok? {
      MergedDecodes(o, w);
      var ot, wt := Decode(o).value, Decode(w).value;
      LinesOfMerge(ot, wt);
      var secrets := Secrets(Lines(ot));
      RedactMergeLines(secrets, Lines(wt));
    }
  }

  lemma RedactIdempotent(o: seq<byte>)
    requires Redact(o).Ok?
    ensures Redact(Redact(o).value) == Redact(o)
  {
    RedactedDecodes(o);
    LinesOfRedact(Decode(o).value);
    RedactLinesIdempotent(Lines(Decode(o).value));
  }

  ghost predicate ConsistentFile(o: seq<byte>)
    requires Decode(o).Some?
  {
    Consistent(Lines(Decode(o).value))
  }

  /** Writing the view back unchanged reproduces the original byte for byte
      exactly when no key is given two values. */
  lemma RoundTrip(o: seq<byte>)
    requires Redact(o).Ok?
    ensures Merge(o, Redact(o).value).Ok?
    ensures Merge(o, Redact(o).value) == Ok(o) <==> ConsistentFile(o)
  {
    var t := Decode(o).value;
    RedactedDecodes(o);
    var v := Redact(o).value;
    MergedDecodes(o, v);
    LinesOfRedact(t);
    LinesOfMerge(t, RedactText(t));
    RoundTripLines(Lines(t));
    SameLines(MergeText(t, RedactText(t)), t);
    EncodeDecode(o);
    EncodeDecode(Merge(o, v).value);
  }

  lemma ClassifyAuth(value: string)
    ensures Classify(Assignment("_auth", value)) == Secret("_auth", value)
  {
    SplitAssignment("_auth", value);
    assert TrimStart("_auth") == "_auth" && TrimEnd("_auth") == "_auth";
    assert Lower("_auth") == "_auth";
    assert !IsWhitespace('_') && Assignment("_auth", value)[0] == '_';
  }

  /** One key with two values does not survive the round trip. */
  lemma TwoValuesAreLost(a: string, b: string)
    requires '\n' !in a && '\n' !in b && a != b
    ensures
      var o := Encode(Join([Assignment("_auth", a), Assignment("_auth", b)]));
      Redact(o).Ok? && Merge(o, Redact(o).value) != Ok(o)
  {
    var ls := [Assignment("_auth", a), Assignment("_auth", b)];
    var t := Join(ls);
    DecodeEncode(t);
    LinesJoin(ls);
    ClassifyAuth(a);
    ClassifyAuth(b);
    assert Classify(ls[0]).value != Classify(ls[1]).value;
    assert !Consistent(ls);
    RoundTrip(Encode(t));
  }

  /** Merging a merged text again onto the same original changes nothing. */
  lemma MergeStable(o: seq<byte>, w: seq<byte>)
    requires Merge(o, w).Ok?
    ensures Merge(o, Merge(o, w).value) == Merge(o, w)
  {
    MergedDecodes(o, w);
    var ot, wt := Decode(o).value, Decode(w).value;
    LinesOfMerge(ot, wt);
    var secrets := Secrets(Lines(ot));
    MergeLinesStable(secrets, Lines(wt));
  }

  /** What a merge stores, line by line: a credential line still holding the
      placeholder gets the last value the original had under that key; every
      other line is the program's own. */
  lemma MergeRestoresLastValue(o: seq<byte>, w: seq<byte>, i: nat)
    requires Merge(o, w).Ok?
    requires i < |Lines(Decode(w).value)|
    ensures Decode(Merge(o, w).value).Some?
    ensures
      var ols, wls := Lines(Decode(o).value), Lines(Decode(w).value);
      var mls := Lines(Decode(Merge(o, w).value).value);
      && |mls| == |wls|
      && (mls[i] != wls[i] ==> Classify(wls[i]).Secret? && Classify(wls[i]).value == PLACEHOLDER)
      && (Classify(wls[i]).Secret? && Classify(wls[i]).value == PLACEHOLDER ==>
            var Secret(key, _) := Classify(wls[i]);
            && (forall j :: IsLastFor(ols, NormKey(key), j) ==>
                 Classify(mls[i]) == Secret(key, Classify(ols[j]).value))
            && ((forall j :: 0 <= j < |ols| ==> !IsSecretFor(ols[j], NormKey(key))) ==> mls[i] == wls[i]))
  {
    var ot, wt := Decode(o).value, Decode(w).value;
    MergedDecodes(o, w);
    LinesOfMerge(ot, wt);
    var line := Lines(wt)[i];
    if Classify(line).Secret? {
      var k := NormKey(Classify(line).key);
      SecretsAreLastValues(Lines(ot), k);
      if k in Secrets(Lines(ot)) {
        ClassifyAssignment(line, Secrets(Lines(ot))[k]);
      }
    }
  }

  predicate SameButValues(als: seq<string>, bls: seq<string>)
  {
    |als| == |bls| && forall i :: 0 <= i < |als| ==> SameButValue(als[i], bls[i])
  }

  lemma RedactLinesKernel(als: seq<string>, bls: seq<string>)
    ensures RedactLines(als) == RedactLines(bls) <==> SameButValues(als, bls)
  {
    if RedactLines(als) == RedactLines(bls) {
      assert |als| == |RedactLines(als)| == |RedactLines(bls)| == |bls|;
      forall i | 0 <= i < |als|
        ensures SameButValue(als[i], bls[i])
      {
        assert RedactLine(als[i]) == RedactLines(als)[i] == RedactLines(bls)[i] == RedactLine(bls[i]);
        RedactLineKernel(als[i], bls[i]);
      }
    }
    if SameButValues(als, bls) {
      forall i | 0 <= i < |als|
        ensures RedactLine(als[i]) == RedactLine(bls[i])
      {
        RedactLineKernel(als[i], bls[i]);
      }
    }
  }

  /** Exactly what a view hides: two files look the same when, and only when,
      they have the same lines up to the values of credential lines. */
  lemma ViewHidesExactlyValues(a: seq<byte>, b: seq<byte>)
    requires Redact(a).Ok? && Redact(b).Ok?
    ensures Redact(a) == Redact(b) <==> SameButValues(Lines(Decode(a).value), Lines(Decode(b).value))
  {
    var at, bt := Decode(a).value, Decode(b).value;
    RedactedDecodes(a);
    RedactedDecodes(b);
    LinesOfRedact(at);
    LinesOfRedact(bt);
    RedactLinesKernel(Lines(at), Lines(bt));
  }
}
