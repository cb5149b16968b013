/** Line tokenisation the way the .NET `String.Split` overloads used by the
    reader do it: every separator character ends a piece and empty pieces
    are kept, so "a  b" has three pieces and "" has one. */
module Text {

  /** The characters `char.IsWhiteSpace` accepts; `String.Split()` with no
      arguments splits on exactly these. */
  predicate IsWhiteSpace(c: char) {
    || ('\U{0009}' <= c <= '\U{000D}')
    || c == ' '
    || c == '\U{0085}'
    || c == '\U{00A0}'
    || c == '\U{1680}'
    || ('\U{2000}' <= c <= '\U{200A}')
    || c == '\U{2028}'
    || c == '\U{2029}'
    || c == '\U{202F}'
    || c == '\U{205F}'
    || c == '\U{3000}'
  }

  predicate IsSpace(c: char) {
    c == ' '
  }

  function SeparatorCount(s: string, isSep: char -> bool): nat {
    if |s| == 0 then 0 else (if isSep(s[0]) then 1 else 0) + SeparatorCount(s[1..], isSep)
  }

  /** Splits `s` at every character `isSep` accepts, keeping empty pieces. */
  function SplitBy(s: string, isSep: char -> bool): (parts: seq<string>)
    ensures |parts| == 1 + SeparatorCount(s, isSep)
    ensures forall k, i :: 0 <= k < |parts| && 0 <= i < |parts[k]| ==> !isSep(parts[k][i])
    decreases |s|
  {
    if |s| == 0 then [""]
    else
      var rest := SplitBy(s[1..], isSep);
      if isSep(s[0]) then [""] + rest
      else [[s[0]] + rest[0]] + rest[1..]
  }

  /** Glues pieces back together with `sep` between neighbours. */
  function Join(parts: seq<string>, sep: char): string
    requires |parts| >= 1
  {
    if |parts| == 1 then parts[0] else parts[0] + [sep] + Join(parts[1..], sep)
  }

  /** Splitting on a single separator character loses nothing: joining the
      pieces with that character gives the line back. */
  lemma {:induction false} JoinSplit(s: string, isSep: char -> bool, sep: char)
    requires forall c :: isSep(c) <==> c == sep
    ensures Join(SplitBy(s, isSep), sep) == s
    decreases |s|
  {
    if |s| > 0 {
      var rest := SplitBy(s[1..], isSep);
      JoinSplit(s[1..], isSep, sep);
      if !isSep(s[0]) {
        var parts := SplitBy(s, isSep);
        assert parts[1..] == rest[1..];
        if |rest| == 1 {
          assert Join(parts, sep) == [s[0]] + rest[0];
        } else {
          assert Join(rest, sep) == rest[0] + [sep] + Join(rest[1..], sep);
          assert Join(parts, sep) == [s[0]] + rest[0] + [sep] + Join(rest[1..], sep);
        }
      }
    }
  }

  /** No character of `s` is a separator. */
  predicate Unbroken(s: string, isSep: char -> bool) {
    forall i :: 0 <= i < |s| ==> !isSep(s[i])
  }

  /** A separator-free prefix is glued onto the first piece of what follows. */
  lemma {:induction false} SplitUnbrokenPrefix(a: string, s: string, isSep: char -> bool)
    requires Unbroken(a, isSep)
    ensures SplitBy(a + s, isSep) == [a + SplitBy(s, isSep)[0]] + SplitBy(s, isSep)[1..]
    decreases |a|
  {
    if |a| > 0 {
      var parts := SplitBy(s, isSep);
      assert (a + s)[1..] == a[1..] + s;
      assert (a + s)[0] == a[0] && !isSep(a[0]);
      assert Unbroken(a[1..], isSep) by {
        forall i | 0 <= i < |a| - 1 ensures !isSep(a[1..][i]) {
          assert a[1..][i] == a[i + 1];
        }
      }
      SplitUnbrokenPrefix(a[1..], s, isSep);
      var rest := SplitBy(a[1..] + s, isSep);
      assert rest == [a[1..] + parts[0]] + parts[1..];
      assert SplitBy(a + s, isSep) == [[a[0]] + rest[0]] + rest[1..];
      assert rest[0] == a[1..] + parts[0];
      assert rest[1..] == parts[1..];
      assert a == [a[0]] + a[1..];
      assert [a[0]] + rest[0] == a + parts[0];
    } else {
      var parts := SplitBy(s, isSep);
      assert a + s == s && a + parts[0] == parts[0];
      assert parts == [parts[0]] + parts[1..];
    }
  }

  /** Joining separator-free pieces and splitting again gives the pieces back. */
  lemma {:induction false} SplitJoin(parts: seq<string>, isSep: char -> bool, sep: char)
    requires |parts| >= 1 && isSep(sep)
    requires forall k :: 0 <= k < |parts| ==> Unbroken(parts[k], isSep)
    ensures SplitBy(Join(parts, sep), isSep) == parts
    decreases |parts|
  {
    if |parts| == 1 {
      SplitUnbrokenPrefix(parts[0], "", isSep);
      assert parts[0] + "" == parts[0];
      assert parts == [parts[0]];
    } else {
      var rest := Join(parts[1..], sep);
      SplitJoin(parts[1..], isSep, sep);
      assert Join(parts, sep) == parts[0] + ([sep] + rest);
      SplitUnbrokenPrefix(parts[0], [sep] + rest, isSep);
      assert ([sep] + rest)[1..] == rest;
      assert SplitBy([sep] + rest, isSep) == [""] + parts[1..];
      assert parts[0] + "" == parts[0];
      assert parts == [parts[0]] + parts[1..];
    }
  }

  /** `line.Split()`: the whitespace-separated tokens of a header line. */
  function Tokens(line: string): (col: seq<string>)
    ensures |col| >= 1
  {
    SplitBy(line, IsWhiteSpace)
  }

  /** `line.Split(' ')`: the space-separated fields of an ASCII body line. */
  function Fields(line: string): (fields: seq<string>)
    ensures |fields| >= 1
    ensures Join(fields, ' ') == line
  {
    JoinSplit(line, IsSpace, ' ');
    SplitBy(line, IsSpace)
  }
}
