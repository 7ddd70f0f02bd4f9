/** What trimming and lowercasing do, in terms of single characters. */
module TextLaws {
  import opened Text

  /** White space from `i` to `j`. */
  predicate White(s: string, i: int, j: int)
    requires 0 <= i <= j <= |s|
  {
    forall k :: i <= k < j ==> IsWhitespace(s[k])
  }

  /** The same code, or the two cases of an ASCII letter. */
  predicate SameCode(v: int, w: int)
  {
    v == w || (65 <= v <= 90 && w == v + 32) || (65 <= w <= 90 && v == w + 32)
  }

  /** Equal up to the case of ASCII letters. */
  predicate SameLetter(c: char, d: char) { SameCode(c as int, d as int) }

  predicate SameWord(a: string, b: string)
  {
    |a| == |b| && forall i :: 0 <= i < |a| ==> SameLetter(a[i], b[i])
  }

  lemma {:induction false} TrimStartCuts(s: string) returns (i: nat)
    ensures i <= |s| && TrimStart(s) == s[i..] && White(s, 0, i) && (i < |s| ==> !IsWhitespace(s[i]))
  {
    if s != "" && IsWhitespace(s[0]) {
      var j := TrimStartCuts(s[1..]);
      i := j + 1;
      assert forall k :: 1 <= k < i ==> s[k] == s[1..][k - 1];
      assert s[i..] == s[1..][j..];
    } else {
      i := 0;
      assert s[0..] == s;
    }
  }

  lemma {:induction false} TrimEndCuts(s: string) returns (j: nat)
    ensures j <= |s| && TrimEnd(s) == s[..j] && White(s, j, |s|) && (j > 0 ==> !IsWhitespace(s[j - 1]))
  {
    if s != "" && IsWhitespace(s[|s| - 1]) {
      var front := s[..|s| - 1];
      j := TrimEndCuts(front);
      assert forall k :: j <= k < |front| ==> s[k] == front[k];
      assert s[..j] == front[..j];
    } else {
      j := |s|;
      assert s[..j] == s;
    }
  }

  /** `trim` leaves the part between the outer white space. */
  lemma TrimCuts(s: string) returns (i: nat, j: nat)
    ensures i <= j <= |s| && Trim(s) == s[i..j] && White(s, 0, i) && White(s, j, |s|)
    ensures i < j ==> !IsWhitespace(s[i]) && !IsWhitespace(s[j - 1])
  {
    i := TrimStartCuts(s);
    var n := TrimEndCuts(s[i..]);
    j := i + n;
    assert s[i..][..n] == s[i..j];
    assert forall k :: j <= k < |s| ==> s[k] == s[i..][k - i];
  }

  lemma LowerSame(c: char, d: char)
    ensures LowerChar(c) == LowerChar(d) <==> SameLetter(c, d)
  {}

  lemma LowerSameWord(a: string, b: string)
    ensures Lower(a) == Lower(b) <==> SameWord(a, b)
  {
    if Lower(a) == Lower(b) {
      assert |a| == |Lower(a)| == |Lower(b)| == |b|;
      forall i | 0 <= i < |a| ensures SameLetter(a[i], b[i]) {
        assert LowerChar(a[i]) == Lower(a)[i] == Lower(b)[i] == LowerChar(b[i]);
        LowerSame(a[i], b[i]);
      }
    }
    if SameWord(a, b) {
      forall i | 0 <= i < |a| ensures LowerChar(a[i]) == LowerChar(b[i]) {
        LowerSame(a[i], b[i]);
      }
    }
  }

  /** Trimming the part inside some white space is trimming the whole. */
  lemma TrimOuter(s: string, i: nat, j: nat)
    requires i <= j <= |s| && White(s, 0, i) && White(s, j, |s|)
    ensures Trim(s[i..j]) == Trim(s)
  {
    var x := s[i..j];
    var p, q := TrimCuts(s);
    var a, b := TrimCuts(x);
    assert forall k :: 0 <= k < |x| ==> x[k] == s[i + k];
    if p < q {
      assert i <= p && q <= j;
      assert !IsWhitespace(x[p - i]) && !IsWhitespace(x[q - 1 - i]);
      assert a <= p - i < b && a <= q - 1 - i < b;
      assert p <= i + a < q && p <= i + b - 1 < q;
      assert x[a..b] == s[p..q];
    } else {
      assert forall k :: 0 <= k < |s| ==> IsWhitespace(s[k]);
      assert a == b;
    }
  }

  lemma SameWhite(c: char, d: char)
    requires SameLetter(c, d)
    ensures IsWhitespace(c) == IsWhitespace(d)
  {}

  lemma TrimSameWord(x: string, y: string)
    requires SameWord(x, y)
    ensures SameWord(Trim(x), Trim(y))
  {
    var a, b := TrimCuts(x);
    var p, q := TrimCuts(y);
    forall k | 0 <= k < |x| ensures IsWhitespace(x[k]) == IsWhitespace(y[k]) {
      SameWhite(x[k], y[k]);
    }
    if a < b {
      assert !IsWhitespace(y[a]) && !IsWhitespace(y[b - 1]);
      assert p <= a < q && p <= b - 1 < q;
      assert a <= p < b && a <= q - 1 < b;
    } else {
      assert forall k :: 0 <= k < |x| ==> IsWhitespace(x[k]);
      assert p == q;
    }
  }

  /** `trim` of a text with nothing to trim at its ends. */
  lemma TrimOfTrimmed(x: string)
    requires x != "" ==> !IsWhitespace(x[0]) && !IsWhitespace(x[|x| - 1])
    ensures Trim(x) == x
  {
    var i, j := TrimCuts(x);
    assert x != "" ==> i == 0 && j == |x|;
    assert x[0..|x|] == x;
  }

  /** Lowercasing changes case only and leaves no upper case letter. */
  lemma LowerIsSameWord(s: string)
    ensures SameWord(Lower(s), s) && forall i :: 0 <= i < |s| ==> !('A' <= Lower(s)[i] <= 'Z')
  {}
}
