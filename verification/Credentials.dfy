/** Which lines of an `.npmrc` hold a credential, said without the code's own
    functions: in terms of the line's characters only. */
module Credentials {
  import opened Wrappers
  import opened Sequences
  import opened Utf8
  import opened Text
  import opened TextLaws
  import opened Npmrc
  import opened NpmrcLaws

  // ---- The definition ----

  /** `_authToken`, `_auth` or `_password` in any case. */
  predicate IsCredentialName(name: string)
  {
    SameWord(name, "_authToken") || SameWord(name, "_auth") || SameWord(name, "_password")
  }

  /** The text before the `=` ends in such a name, perhaps followed by white
      space. */
  ghost predicate NamesCredential(key: string)
  {
    exists i, j :: 0 <= i <= j <= |key| && IsCredentialName(key[i..j]) && White(key, j, |key|)
  }

  /** White space, then `#` or `;`. */
  ghost predicate CommentLine(line: string)
  {
    exists i :: 0 <= i < |line| && White(line, 0, i) && (line[i] == '#' || line[i] == ';')
  }

  /** The line is `key=value`, no comment, and its key names a credential. */
  ghost predicate CredentialLine(line: string, key: string, value: string)
  {
    line == key + "=" + value && '=' !in key && !CommentLine(line) && NamesCredential(key)
  }

  /** The same key: equal up to ASCII case once surrounding white space is
      dropped. */
  ghost predicate SameKey(a: string, b: string)
  {
    exists i, j, k, l ::
      && 0 <= i <= j <= |a| && White(a, 0, i) && White(a, j, |a|)
      && 0 <= k <= l <= |b| && White(b, 0, k) && White(b, l, |b|)
      && SameWord(a[i..j], b[k..l])
  }

  // ---- The code's functions meet it ----

  lemma CommentIff(line: string)
    ensures IsComment(line) <==> CommentLine(line)
  {
    var i := TrimStartCuts(line);
    if IsComment(line) {
      assert line[i..][0] == line[i];
    }
    if CommentLine(line) {
      var k :| 0 <= k < |line| && White(line, 0, k) && (line[k] == '#' || line[k] == ';');
      assert i <= k && k <= i;
      assert line[i..][0] == line[i];
    }
  }

  // ---- Keys ----

  lemma LowerEnds(s: string, suffix: string, word: string)
    requires Lower(word) == suffix
    ensures EndsWith(Lower(s), suffix) <==> |word| <= |s| && SameWord(s[|s| - |word|..], word)
  {
    assert |suffix| == |word|;
    if |word| <= |s| {
      var n := |s| - |word|;
      assert Lower(s)[n..] == Lower(s[n..]);
      LowerSameWord(s[n..], word);
    }
  }

  predicate Black(word: string)
  {
    word != "" && forall i :: 0 <= i < |word| ==> !IsWhitespace(word[i]) && !IsWhitespace(LowerChar(word[i]))
  }

  /** The word stands in the key from `i` to `j`, and then only white space. */
  predicate EndsAt(key: string, word: string, i: int, j: int)
  {
    0 <= i <= j <= |key| && SameWord(key[i..j], word) && White(key, j, |key|)
  }

  lemma EndsInTrimmed(key: string, word: string, i: int, j: int)
    requires Black(word) && EndsAt(key, word, i, j)
    ensures |word| <= |Trim(key)| && SameWord(Trim(key)[|Trim(key)| - |word|..], word)
  {
    var a, b := TrimCuts(key);
    var t := Trim(key);
    NotWhite(key[i..j], word);
    EndOfBlack(key, i, j, a, b);
    assert !IsWhitespace(key[i..j][0]) && key[i..j][0] == key[i];
    assert a <= i;
    assert t[|t| - |word|..] == key[i..j];
  }

  /** A name without white space ends the trimmed key exactly when it ends the
      key up to white space. */
  lemma EndsTrimmed(key: string, word: string)
    requires Black(word)
    ensures (|word| <= |Trim(key)| && SameWord(Trim(key)[|Trim(key)| - |word|..], word)) <==>
              exists i, j :: EndsAt(key, word, i, j)
  {
    var a, b := TrimCuts(key);
    var t := Trim(key);
    if |word| <= |t| && SameWord(t[|t| - |word|..], word) {
      assert key[b - |word|..b] == t[|t| - |word|..];
      assert EndsAt(key, word, b - |word|, b);
    }
    if i, j :| EndsAt(key, word, i, j) {
      EndsInTrimmed(key, word, i, j);
    }
  }

  lemma NotWhite(x: string, word: string)
    requires SameWord(x, word)
    requires forall i :: 0 <= i < |word| ==> !IsWhitespace(word[i]) && !IsWhitespace(LowerChar(word[i]))
    ensures forall i :: 0 <= i < |x| ==> !IsWhitespace(x[i])
  {
    forall i | 0 <= i < |x| ensures !IsWhitespace(x[i]) {
      assert SameLetter(x[i], word[i]);
    }
  }

  lemma EndOfBlack(key: string, i: nat, j: nat, a: nat, b: nat)
    requires i < j <= |key| && a <= b <= |key|
    requires White(key, j, |key|) && forall m :: 0 <= m < j - i ==> !IsWhitespace(key[i..j][m])
    requires White(key, 0, a) && White(key, b, |key|) && (a < b ==> !IsWhitespace(key[b - 1]))
    ensures j == b
  {
    assert !IsWhitespace(key[i..j][j - i - 1]) && key[i..j][j - i - 1] == key[j - 1];
  }

  lemma EndsInName(key: string, suffix: string, word: string)
    requires Lower(word) == suffix && Black(word)
    ensures EndsWith(NormKey(key), suffix) <==> exists i, j :: EndsAt(key, word, i, j)
  {
    LowerEnds(Trim(key), suffix, word);
    EndsTrimmed(key, word);
  }

  lemma NamesIff(key: string)
    ensures NamesCredential(key) <==>
              || (exists i, j :: EndsAt(key, "_authToken", i, j))
              || (exists i, j :: EndsAt(key, "_auth", i, j))
              || (exists i, j :: EndsAt(key, "_password", i, j))
  {
    if NamesCredential(key) {
      var i, j :| 0 <= i <= j <= |key| && IsCredentialName(key[i..j]) && White(key, j, |key|);
      assert EndsAt(key, "_authToken", i, j) || EndsAt(key, "_auth", i, j) || EndsAt(key, "_password", i, j);
    }
  }

  lemma SecretKeyIff(key: string)
    ensures IsSecretKey(key) <==> NamesCredential(key)
  {
    assert Lower("_authToken") == "_authtoken" && Lower("_auth") == "_auth" && Lower("_password") == "_password";
    EndsInName(key, "_authtoken", "_authToken");
    EndsInName(key, "_auth", "_auth");
    EndsInName(key, "_password", "_password");
    NamesIff(key);
  }

  /** The code's classification of a line is the one defined above. */
  lemma ClassifyIff(line: string, key: string, value: string)
    ensures Classify(line) == Secret(key, value) <==> CredentialLine(line, key, value)
  {
    CommentIff(line);
    if Classify(line) == Secret(key, value) {
      SecretParts(line);
      SecretKeyIff(key);
    }
    if CredentialLine(line, key, value) {
      SplitAssignment(key, value);
      SecretKeyIff(key);
    }
  }

  // ---- Keys that match ----

  lemma NormKeyIff(a: string, b: string)
    ensures NormKey(a) == NormKey(b) <==> SameKey(a, b)
  {
    LowerSameWord(Trim(a), Trim(b));
    if SameWord(Trim(a), Trim(b)) {
      var i, j := TrimCuts(a);
      var k, l := TrimCuts(b);
      assert SameWord(a[i..j], b[k..l]);
    }
    if SameKey(a, b) {
      var i, j, k, l :|
        && 0 <= i <= j <= |a| && White(a, 0, i) && White(a, j, |a|)
        && 0 <= k <= l <= |b| && White(b, 0, k) && White(b, l, |b|)
        && SameWord(a[i..j], b[k..l]);
      TrimOuter(a, i, j);
      TrimOuter(b, k, l);
      TrimSameWord(a[i..j], b[k..l]);
    }
  }

  // ---- What is served ----

  ghost predicate HasCredential(line: string) { exists key, value :: CredentialLine(line, key, value) }

  lemma ServedLine(line: string)
    ensures forall key, value :: CredentialLine(line, key, value) ==> RedactLine(line) == key + "=<redacted value>"
    ensures !HasCredential(line) ==> RedactLine(line) == line
  {
    forall key, value | CredentialLine(line, key, value)
      ensures RedactLine(line) == key + "=<redacted value>"
    {
      ClassifyIff(line, key, value);
      assert key + "=" + PLACEHOLDER == key + "=<redacted value>";
    }
    if Classify(line).Secret? {
      ClassifyIff(line, Classify(line).key, Classify(line).value);
    }
  }

  /** The view of a file has the file's lines, with exactly the values of
      credential lines replaced: every other line, comments and lines without
      `=` among them, is served as it is. */
  lemma ServedLines(o: seq<byte>, i: nat)
    requires Redact(o).Ok? && i < |Lines(Decode(o).value)|
    ensures Decode(Redact(o).value).Some?
    ensures
      var ols, vls := Lines(Decode(o).value), Lines(Decode(Redact(o).value).value);
      && |vls| == |ols|
      && (forall key, value :: CredentialLine(ols[i], key, value) ==> vls[i] == key + "=<redacted value>")
      && (!HasCredential(ols[i]) ==> vls[i] == ols[i])
  {
    RedactedDecodes(o);
    LinesOfRedact(Decode(o).value);
    ServedLine(Lines(Decode(o).value)[i]);
  }

  /** In particular `_authToken`, `_auth` and `_password` in any case, whatever
      stands before them and whatever white space before the `=`. */
  lemma EveryCredentialIsOne(pre: string, name: string, post: string, value: string)
    requires IsCredentialName(name) && White(post, 0, |post|) && '=' !in pre
    requires !CommentLine((pre + name + post) + "=" + value)
    ensures CredentialLine((pre + name + post) + "=" + value, pre + name + post, value)
  {
    var key := pre + name + post;
    assert key[|pre|..|pre + name|] == name;
    assert forall k :: |pre + name| <= k < |key| ==> key[k] == post[k - |pre + name|];
    assert forall k :: 0 <= k < |name| ==> name[k] != '=';
    assert NamesCredential(key);
  }

  // ---- What is stored ----

  /** Line `j` is the last credential line under that key, with that value. */
  ghost predicate LastUnder(ls: seq<string>, key: string, j: int, value: string)
  {
    && 0 <= j < |ls|
    && (exists k :: CredentialLine(ls[j], k, value) && SameKey(k, key))
    && forall m :: j < m < |ls| ==> !CredentialUnder(ls[m], key)
  }

  ghost predicate CredentialUnder(line: string, key: string)
  {
    exists k, value :: CredentialLine(line, k, value) && SameKey(k, key)
  }

  lemma UnderIff(line: string, key: string)
    ensures CredentialUnder(line, key) <==> IsSecretFor(line, NormKey(key))
  {
    if CredentialUnder(line, key) {
      var k, value :| CredentialLine(line, k, value) && SameKey(k, key);
      ClassifyIff(line, k, value);
      NormKeyIff(k, key);
    }
    if IsSecretFor(line, NormKey(key)) {
      var Secret(k, value) := Classify(line);
      ClassifyIff(line, k, value);
      NormKeyIff(k, key);
    }
  }

  lemma LastIff(ls: seq<string>, key: string, j: int, value: string)
    requires LastUnder(ls, key, j, value)
    ensures IsLastFor(ls, NormKey(key), j) && Classify(ls[j]).Secret? && Classify(ls[j]).value == value
  {
    var k :| CredentialLine(ls[j], k, value) && SameKey(k, key);
    ClassifyIff(ls[j], k, value);
    NormKeyIff(k, key);
    forall m | j < m < |ls| ensures !IsSecretFor(ls[m], NormKey(key)) {
      UnderIff(ls[m], key);
    }
  }

  /** The lines of the original, of what was written and of what is stored. */
  ghost predicate Stores(o: seq<byte>, w: seq<byte>, ols: seq<string>, wls: seq<string>, mls: seq<string>)
  {
    && Merge(o, w).Ok? && ols == Lines(Decode(o).value) && wls == Lines(Decode(w).value)
    && Decode(Merge(o, w).value).Some? && mls == Lines(Decode(Merge(o, w).value).value)
  }

  lemma StoredLast(o: seq<byte>, w: seq<byte>, ols: seq<string>, wls: seq<string>, mls: seq<string>,
                   i: nat, key: string, j: int, value: string)
    requires Stores(o, w, ols, wls, mls) && i < |wls| && CredentialLine(wls[i], key, "<redacted value>")
    requires LastUnder(ols, key, j, value)
    ensures |mls| == |wls| && mls[i] == key + "=" + value
  {
    MergedDecodes(o, w);
    LinesOfMerge(Decode(o).value, Decode(w).value);
    assert mls[i] == MergeLine(Secrets(ols), wls[i]);
    RestoredLine(ols, wls[i], key, j, value);
  }

  lemma RestoredLine(ols: seq<string>, line: string, key: string, j: int, value: string)
    requires CredentialLine(line, key, "<redacted value>") && LastUnder(ols, key, j, value)
    ensures MergeLine(Secrets(ols), line) == key + "=" + value
  {
    ClassifyIff(line, key, "<redacted value>");
    LastIff(ols, key, j, value);
    SecretsLast(ols, NormKey(key), j);
  }

  lemma StoredNone(o: seq<byte>, w: seq<byte>, ols: seq<string>, wls: seq<string>, mls: seq<string>,
                   i: nat, key: string)
    requires Stores(o, w, ols, wls, mls) && i < |wls| && CredentialLine(wls[i], key, "<redacted value>")
    requires forall j :: 0 <= j < |ols| ==> !CredentialUnder(ols[j], key)
    ensures |mls| == |wls| && mls[i] == wls[i]
  {
    MergeRestoresLastValue(o, w, i);
    ClassifyIff(wls[i], key, "<redacted value>");
    forall j | 0 <= j < |ols| ensures !IsSecretFor(ols[j], NormKey(key)) {
      UnderIff(ols[j], key);
    }
  }

  lemma StoredOther(o: seq<byte>, w: seq<byte>, ols: seq<string>, wls: seq<string>, mls: seq<string>, i: nat)
    requires Stores(o, w, ols, wls, mls) && i < |wls|
    ensures |mls| == |wls|
    ensures mls[i] != wls[i] ==> exists k :: CredentialLine(wls[i], k, "<redacted value>")
  {
    MergeRestoresLastValue(o, w, i);
    if mls[i] != wls[i] {
      ClassifyIff(wls[i], Classify(wls[i]).key, "<redacted value>");
    }
  }

  /** What a merge stores on line `i`: a credential line still holding the
      placeholder gets the last value the original had under the same key, up to
      white space around it and ASCII case, or stays if there is none; every
      other line is the program's own. */
  lemma StoredLines(o: seq<byte>, w: seq<byte>, i: nat, key: string)
    requires Merge(o, w).Ok? && i < |Lines(Decode(w).value)|
    ensures Decode(Merge(o, w).value).Some?
    ensures
      var ols, wls := Lines(Decode(o).value), Lines(Decode(w).value);
      var mls := Lines(Decode(Merge(o, w).value).value);
      && |mls| == |wls|
      && (mls[i] != wls[i] ==> exists k :: CredentialLine(wls[i], k, "<redacted value>"))
      && (CredentialLine(wls[i], key, "<redacted value>") ==>
            && (forall j, value :: LastUnder(ols, key, j, value) ==> mls[i] == key + "=" + value)
            && ((forall j :: 0 <= j < |ols| ==> !CredentialUnder(ols[j], key)) ==> mls[i] == wls[i]))
  {
    MergedDecodes(o, w);
    var ols, wls := Lines(Decode(o).value), Lines(Decode(w).value);
    var mls := Lines(Decode(Merge(o, w).value).value);
    StoredOther(o, w, ols, wls, mls, i);
    if CredentialLine(wls[i], key, "<redacted value>") {
      forall j, value | LastUnder(ols, key, j, value)
        ensures mls[i] == key + "=" + value
      {
        StoredLast(o, w, ols, wls, mls, i, key, j, value);
      }
      if forall j :: 0 <= j < |ols| ==> !CredentialUnder(ols[j], key) {
        StoredNone(o, w, ols, wls, mls, i, key);
      }
    }
  }

  // ---- Whole files ----

  /** No key has two values. */
  ghost predicate OneValuePerKey(ls: seq<string>)
  {
    forall i, j, a, b, v, w ::
      (0 <= i < |ls| && 0 <= j < |ls| && CredentialLine(ls[i], a, v) && CredentialLine(ls[j], b, w) && SameKey(a, b))
      ==> v == w
  }

  lemma ConsistentIff(ls: seq<string>)
    ensures Consistent(ls) <==> OneValuePerKey(ls)
  {
    if Consistent(ls) {
      forall i, j, a, b, v, w | 0 <= i < |ls| && 0 <= j < |ls|
          && CredentialLine(ls[i], a, v) && CredentialLine(ls[j], b, w) && SameKey(a, b)
        ensures v == w
      {
        ClassifyIff(ls[i], a, v);
        ClassifyIff(ls[j], b, w);
        NormKeyIff(a, b);
      }
    }
    if OneValuePerKey(ls) {
      forall i, j | 0 <= i < |ls| && 0 <= j < |ls| && Classify(ls[i]).Secret? && Classify(ls[j]).Secret?
          && NormKey(Classify(ls[i]).key) == NormKey(Classify(ls[j]).key)
        ensures Classify(ls[i]).value == Classify(ls[j]).value
      {
        ClassifyIff(ls[i], Classify(ls[i]).key, Classify(ls[i]).value);
        ClassifyIff(ls[j], Classify(ls[j]).key, Classify(ls[j]).value);
        NormKeyIff(Classify(ls[i]).key, Classify(ls[j]).key);
      }
    }
  }

  /** Writing the view back unchanged reproduces the file exactly when no key
      has two values. */
  lemma FileSurvives(o: seq<byte>)
    requires Redact(o).Ok?
    ensures Merge(o, Redact(o).value) == Ok(o) <==> OneValuePerKey(Lines(Decode(o).value))
  {
    RoundTrip(o);
    ConsistentIff(Lines(Decode(o).value));
  }

  /** The same line, or two credential lines with the same text before the `=`. */
  ghost predicate AlikeLines(a: string, b: string)
  {
    a == b || exists key, v, w :: CredentialLine(a, key, v) && CredentialLine(b, key, w)
  }

  lemma AlikeIff(a: string, b: string)
    ensures AlikeLines(a, b) <==> SameButValue(a, b)
  {
    if a != b && AlikeLines(a, b) {
      var key, v, w :| CredentialLine(a, key, v) && CredentialLine(b, key, w);
      ClassifyIff(a, key, v);
      ClassifyIff(b, key, w);
    }
    if a != b && SameButValue(a, b) {
      ClassifyIff(a, Classify(a).key, Classify(a).value);
      ClassifyIff(b, Classify(b).key, Classify(b).value);
    }
  }

  ghost predicate AlikeTexts(a: string, b: string)
  {
    |Lines(a)| == |Lines(b)| && forall i :: 0 <= i < |Lines(a)| ==> AlikeLines(Lines(a)[i], Lines(b)[i])
  }

  /** Two files are served alike exactly when they differ in nothing but the
      values of credential lines. */
  lemma ServedAlike(a: seq<byte>, b: seq<byte>)
    requires Redact(a).Ok? && Redact(b).Ok?
    ensures Redact(a) == Redact(b) <==> AlikeTexts(Decode(a).value, Decode(b).value)
  {
    ViewHidesExactlyValues(a, b);
    var als, bls := Lines(Decode(a).value), Lines(Decode(b).value);
    forall i | 0 <= i < |als| && 0 <= i < |bls|
      ensures AlikeLines(als[i], bls[i]) <==> SameButValue(als[i], bls[i])
    {
      AlikeIff(als[i], bls[i]);
    }
  }
}
