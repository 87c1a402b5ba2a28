/**
 * The two pieces of Ruby string handling the server leans on: `String#chomp!`
 * with the default record separator, which strips the request line's
 * terminator, and `Array#join`, which glues the listing's lines together.
 */
module Text {

  /** The terminators `chomp` removes when called without an argument. */
  predicate IsLineTerminator(t: string)
  {
    t == "\n" || t == "\r\n" || t == "\r"
  }

  /** `line` ends in a newline or carriage-return character. */
  predicate EndsInTerminatorChar(line: string)
  {
    |line| > 0 && (line[|line| - 1] == '\n' || line[|line| - 1] == '\r')
  }

  /**
   * `String#chomp`: removes one trailing "\r\n", "\n" or "\r", and nothing else.
   * A "\r\n" pair goes as a unit, so a lone "\n" is only removed when no "\r"
   * stands before it.
   */
  function Chomp(line: string): (r: string)
    ensures |r| <= |line| && r == line[..|r|]
    ensures r == line || IsLineTerminator(line[|r|..])
    ensures r == line <==> !EndsInTerminatorChar(line)
    ensures line[|r|..] == "\n" ==> !(|r| > 0 && r[|r| - 1] == '\r')
  {
    if |line| >= 2 && line[|line| - 2..] == "\r\n" then line[..|line| - 2]
    else if EndsInTerminatorChar(line) then line[..|line| - 1]
    else line
  }

  /** Chomping a line that was sent with a terminator gives back the line itself. */
  lemma ChompRemovesOneTerminator(line: string, t: string)
    requires IsLineTerminator(t)
    requires t == "\n" ==> !(|line| > 0 && line[|line| - 1] == '\r')
    ensures Chomp(line + t) == line
  {
    var s := line + t;
    assert s[..|line|] == line;
    if t == "\r\n" {
      assert s[|s| - 2..] == t;
    } else if t == "\n" && |line| > 0 {
      assert s[|s| - 2..] == [line[|line| - 1], '\n'];
    } else if t == "\r" && |line| > 0 {
      assert s[|s| - 2..] == [line[|line| - 1], '\r'];
    }
  }

  /** `Array#join(sep)`: the elements with `sep` between neighbours, and "" for no elements. */
  function JoinWith(parts: seq<string>, sep: string): string
    decreases |parts|
  {
    if |parts| == 0 then ""
    else if |parts| == 1 then parts[0]
    else parts[0] + sep + JoinWith(parts[1..], sep)
  }

  /** Every element followed by its own terminator. */
  function Terminated(parts: seq<string>, term: string): string
    decreases |parts|
  {
    if |parts| == 0 then "" else parts[0] + term + Terminated(parts[1..], term)
  }

  /** Joining a non-empty list and appending the separator once more
      terminates every element, the last one included. */
  lemma {:induction false} JoinThenSeparatorTerminatesAll(parts: seq<string>, sep: string)
    requires |parts| > 0
    ensures JoinWith(parts, sep) + sep == Terminated(parts, sep)
    decreases |parts|
  {
    if |parts| > 1 {
      JoinThenSeparatorTerminatesAll(parts[1..], sep);
      assert Terminated(parts[1..][1..], sep) == Terminated(parts[2..], sep);
    } else {
      assert Terminated(parts[1..], sep) == "";
    }
  }
}
