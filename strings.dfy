/** String helpers for building and reading back the validator's error message. */
module Strings {

  /** Array.prototype.join: the parts separated by `sep`; the empty list joins to "". */
  function Join(parts: seq<string>, sep: string): string
  {
    if parts == [] then ""
    else if |parts| == 1 then parts[0]
    else parts[0] + sep + Join(parts[1..], sep)
  }

  /** The pieces of `s` between occurrences of `c`, the first of them continuing `piece`. */
  function SplitFrom(s: string, c: char, piece: string): (pieces: seq<string>)
    ensures |pieces| >= 1
    ensures c !in piece ==> forall i :: 0 <= i < |pieces| ==> c !in pieces[i]
  {
    if s == [] then [piece]
    else if s[0] == c then [piece] + SplitFrom(s[1..], c, "")
    else SplitFrom(s[1..], c, piece + [s[0]])
  }

  /** String.prototype.split with a one-character separator: there is always at least one piece,
      and no piece contains the separator. */
  function SplitOn(s: string, c: char): (pieces: seq<string>)
    ensures |pieces| >= 1
    ensures forall i :: 0 <= i < |pieces| ==> c !in pieces[i]
  {
    SplitFrom(s, c, "")
  }

  /** Without the separator, the rest of the string only extends the current piece. */
  lemma {:induction false} SplitFromFree(s: string, c: char, piece: string)
    requires c !in s
    ensures SplitFrom(s, c, piece) == [piece + s]
  {
    if s == [] {
      assert piece + s == piece;
    } else {
      assert s[0] in s;
      SplitFromFree(s[1..], c, piece + [s[0]]);
      assert piece + [s[0]] + s[1..] == piece + s;
    }
  }

  /** A string without the separator is a single piece. */
  lemma SplitOnFree(s: string, c: char)
    requires c !in s
    ensures SplitOn(s, c) == [s]
  {
    SplitFromFree(s, c, "");
    assert "" + s == s;
  }

  /** At one occurrence of the separator, the rest of the string is split afresh. */
  lemma {:induction false} SplitFromConcat(a: string, c: char, b: string, piece: string)
    ensures SplitFrom(a + [c] + b, c, piece) == SplitFrom(a, c, piece) + SplitFrom(b, c, "")
  {
    var s := a + [c] + b;
    if a == [] {
      assert s[0] == c && s[1..] == b;
    } else {
      assert s[0] == a[0] && s[1..] == a[1..] + [c] + b;
      if a[0] == c {
        SplitFromConcat(a[1..], c, b, "");
      } else {
        SplitFromConcat(a[1..], c, b, piece + [a[0]]);
      }
    }
  }

  /** Splitting at one occurrence of the separator splits each side independently. */
  lemma SplitOnConcat(a: string, c: char, b: string)
    ensures SplitOn(a + [c] + b, c) == SplitOn(a, c) + SplitOn(b, c)
  {
    SplitFromConcat(a, c, b, "");
  }

  /** Splitting on a one-character separator undoes joining with it, when no part contains it. */
  lemma {:induction false} SplitJoin(parts: seq<string>, c: char)
    requires |parts| >= 1
    requires forall i :: 0 <= i < |parts| ==> c !in parts[i]
    ensures SplitOn(Join(parts, [c]), c) == parts
  {
    if |parts| == 1 {
      SplitOnFree(parts[0], c);
    } else {
      SplitJoin(parts[1..], c);
      SplitOnConcat(parts[0], c, Join(parts[1..], [c]));
      SplitOnFree(parts[0], c);
      assert parts == [parts[0]] + parts[1..];
    }
  }

  /** Joining a concatenation of two non-empty lists puts one separator between the halves. */
  lemma {:induction false} JoinAppend(a: seq<string>, b: seq<string>, sep: string)
    requires a != [] && b != []
    ensures Join(a + b, sep) == Join(a, sep) + sep + Join(b, sep)
    decreases |a|
  {
    if |a| > 1 {
      JoinAppend(a[1..], b, sep);
      assert (a + b)[1..] == a[1..] + b;
    } else {
      assert (a + b)[1..] == b;
    }
  }

  /** Three pieces joined with `sep`. */
  lemma JoinThree(x: string, y: string, z: string, sep: string)
    ensures Join([x, y, z], sep) == x + sep + y + sep + z
  {
    assert [x, y, z][1..] == [y, z];
    assert [y, z][1..] == [z];
    assert Join([z], sep) == z;
    assert Join([y, z], sep) == y + sep + z;
    assert Join([x, y, z], sep) == x + sep + (y + sep + z);
  }

  /** Five pieces joined with `sep`. */
  lemma JoinFive(a: string, b: string, c: string, d: string, e: string, sep: string)
    ensures Join([a, b, c, d, e], sep) == (a + sep) + b + (sep + c + sep) + d + (sep + e)
  {
    JoinThree(c, d, e, sep);
    assert [a, b, c, d, e][1..] == [b, c, d, e];
    assert [b, c, d, e][1..] == [c, d, e];
    assert Join([b, c, d, e], sep) == b + sep + Join([c, d, e], sep);
  }
}
