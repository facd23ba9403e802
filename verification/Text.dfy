/** White space and lines. */
module Text {

  predicate IsSpace(c: char) { c in {' ', '\t', '\n', '\r', '\U{000B}', '\U{000C}', '\U{0085}', '\U{00A0}'} }

  function TrimLeft(s: string): string {
    if s != "" && IsSpace(s[0]) then TrimLeft(s[1..]) else s
  }

  function TrimRight(s: string): string {
    if s != "" && IsSpace(s[|s| - 1]) then TrimRight(s[..|s| - 1]) else s
  }

  function Trim(s: string): string { TrimRight(TrimLeft(s)) }

  /** White space is taken off at both ends, and all of it. */
  lemma TrimIs(s: string)
    ensures exists a, b :: s == a + Trim(s) + b && (forall c | c in a + b :: IsSpace(c))
    ensures Trim(s) != "" ==> !IsSpace(Trim(s)[0]) && !IsSpace(Trim(s)[|Trim(s)| - 1])
  {
    var a := TrimLeftIs(s);
    var t := TrimLeft(s);
    var b := TrimRightIs(t);
    assert s == a + Trim(s) + b;
    if Trim(s) != "" { assert Trim(s)[0] == t[0]; }
  }

  lemma {:induction false} TrimLeftIs(s: string) returns (a: string)
    ensures s == a + TrimLeft(s) && forall c | c in a :: IsSpace(c)
    ensures TrimLeft(s) != "" ==> !IsSpace(TrimLeft(s)[0])
  {
    a := "";
    if s != "" && IsSpace(s[0]) {
      a := TrimLeftIs(s[1..]);
      a := [s[0]] + a;
    }
  }

  lemma {:induction false} TrimRightIs(s: string) returns (b: string)
    ensures s == TrimRight(s) + b && forall c | c in b :: IsSpace(c)
    ensures TrimRight(s) != "" ==> !IsSpace(TrimRight(s)[|TrimRight(s)| - 1])
  {
    b := "";
    if s != "" && IsSpace(s[|s| - 1]) {
      b := TrimRightIs(s[..|s| - 1]);
      b := b + [s[|s| - 1]];
    }
  }

  /** The text up to and including the first line feed, or all of it. */
  function FirstLine(s: string): (line: string)
    ensures line <= s && (s != [] ==> line != [])
  {
    if s == [] then [] else if s[0] == '\n' then [s[0]] else [s[0]] + FirstLine(s[1..])
  }

  predicate Terminated(line: string) { line != [] && line[|line| - 1] == '\n' }

  lemma {:induction false} FirstLineOfLine(text: string, rest: string)
    requires '\n' !in text
    ensures FirstLine(text + ['\n'] + rest) == text + ['\n']
    ensures FirstLine(text) == text
  {
    if text != [] {
      FirstLineOfLine(text[1..], rest);
      assert (text + ['\n'] + rest)[1..] == text[1..] + ['\n'] + rest;
    } else {
      assert (text + ['\n'] + rest)[0] == '\n';
    }
  }

  lemma {:induction false} FirstLineEnd(s: string)
    ensures !Terminated(FirstLine(s)) ==> FirstLine(s) == s
  {
    if s != [] && s[0] != '\n' {
      FirstLineEnd(s[1..]);
      if !Terminated(FirstLine(s)) && s[1..] != [] {
        assert FirstLine(s)[|FirstLine(s)| - 1] == FirstLine(s[1..])[|FirstLine(s[1..])| - 1];
      }
    }
  }
}
