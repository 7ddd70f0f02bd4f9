/** The string operations the line-based handlers use. */
module Text {
  import opened Sequences

  /** `char::is_whitespace`: the Unicode White_Space property. */
  predicate IsWhitespace(c: char)
  {
    var v := c as int;
    || 0x09 <= v <= 0x0D || v == 0x20 || v == 0x85 || v == 0xA0 || v == 0x1680
    || 0x2000 <= v <= 0x200A || v == 0x2028 || v == 0x2029 || v == 0x202F
    || v == 0x205F || v == 0x3000
  }

  /** Exactly these code points. */
  lemma WhitespaceTable(c: char)
    ensures IsWhitespace(c) <==>
              c as int in {
                0x09, 0x0A, 0x0B, 0x0C, 0x0D, 0x20, 0x85, 0xA0, 0x1680,
                0x2000, 0x2001, 0x2002, 0x2003, 0x2004, 0x2005, 0x2006, 0x2007, 0x2008, 0x2009, 0x200A,
                0x2028, 0x2029, 0x202F, 0x205F, 0x3000
              }
  {}

  function TrimStart(s: string): string
  {
    if s != "" && IsWhitespace(s[0]) then TrimStart(s[1..]) else s
  }

  function TrimEnd(s: string): string
  {
    if s != "" && IsWhitespace(s[|s| - 1]) then TrimEnd(s[..|s| - 1]) else s
  }

  function Trim(s: string): string { TrimEnd(TrimStart(s)) }

  /** `to_ascii_lowercase` of one code. */
  function LowerCode(v: nat): nat { if 65 <= v <= 90 then v + 32 else v }

  function LowerChar(c: char): char
  {
    LowerCode(c as int) as char
  }

  function Lower(s: string): string
  {
    seq(|s|, i requires 0 <= i < |s| => LowerChar(s[i]))
  }

  predicate EndsWith(s: string, suffix: string)
  {
    |suffix| <= |s| && s[|s| - |suffix|..] == suffix
  }

  /** `str::split('\n')`: always at least one line, none holding a newline. */
  function Lines(s: string): (ls: seq<string>)
    ensures |ls| >= 1
    decreases |s|
  {
    var i := IndexOf(s, '\n');
    if i == |s| then [s] else [s[..i]] + Lines(s[i + 1..])
  }

  /** The lines with a newline between each two. */
  function Join(ls: seq<string>): string
    requires |ls| >= 1
  {
    if |ls| == 1 then ls[0] else ls[0] + "\n" + Join(ls[1..])
  }

  ghost predicate NewlineFree(ls: seq<string>)
  {
    forall i :: 0 <= i < |ls| ==> '\n' !in ls[i]
  }

  lemma {:induction false} LinesNewlineFree(s: string)
    ensures NewlineFree(Lines(s))
    decreases |s|
  {
    var i := IndexOf(s, '\n');
    if i < |s| {
      LinesNewlineFree(s[i + 1..]);
    } else {
      assert s[..i] == s;
    }
  }

  lemma {:induction false} JoinLines(s: string)
    ensures Join(Lines(s)) == s
    decreases |s|
  {
    var i := IndexOf(s, '\n');
    if i < |s| {
      var rest := s[i + 1..];
      JoinLines(rest);
      JoinCons(s[..i], Lines(rest));
      AroundNewline(s, i);
    }
  }

  lemma AroundNewline(s: string, i: nat)
    requires i < |s| && s[i] == '\n'
    ensures s == s[..i] + "\n" + s[i + 1..]
  {}

  lemma JoinCons(l: string, ls: seq<string>)
    requires |ls| >= 1
    ensures Join([l] + ls) == l + "\n" + Join(ls)
  {
    assert ([l] + ls)[1..] == ls;
  }

  lemma {:induction false} LinesJoin(ls: seq<string>)
    requires |ls| >= 1 && NewlineFree(ls)
    ensures Lines(Join(ls)) == ls
  {
    var s := Join(ls);
    if |ls| == 1 {
      assert s[..|s|] == s;
      IndexOfIs(s, '\n', |s|);
    } else {
      assert s[..|ls[0]|] == ls[0];
      IndexOfIs(s, '\n', |ls[0]|);
      assert s[|ls[0]| + 1..] == Join(ls[1..]);
      LinesJoin(ls[1..]);
      assert [ls[0]] + ls[1..] == ls;
    }
  }

  lemma {:induction false} JoinSnoc(ls: seq<string>, l: string)
    requires |ls| >= 1
    ensures Join(ls + [l]) == Join(ls) + "\n" + l
  {
    if |ls| == 1 {
      assert (ls + [l])[1..] == [l];
    } else {
      assert (ls + [l])[1..] == ls[1..] + [l];
      JoinSnoc(ls[1..], l);
      calc {
        Join(ls + [l]);
        ls[0] + "\n" + (Join(ls[1..]) + "\n" + l);
        (ls[0] + "\n" + Join(ls[1..])) + "\n" + l;
      }
    }
  }
}
