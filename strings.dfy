/** Text operations the signing scheme relies on: Python's `str.split` on a
    one-character separator, the matching join, and `str.upper` on ASCII. */
module Strings {

  /** `s.split(sep)`: the pieces between consecutive separators, empty
      pieces included, so that `"".split(".") == [""]` and
      `"a..b".split(".") == ["a", "", "b"]`. There is one more piece than
      there are separators, no piece holds the separator, and joining the
      pieces back gives `s` (JoinSplit). */
  function Split(s: string, sep: char): (fields: seq<string>)
    ensures |fields| == Occurrences(s, sep) + 1
    ensures forall k :: 0 <= k < |fields| ==> sep !in fields[k]
    decreases |s|
  {
    if s == [] then [""]
    else
      var rest := Split(s[1..], sep);
      assert s == [s[0]] + s[1..];
      if s[0] == sep then
        var fields := [""] + rest;
        assert fields[1..] == rest;
        fields
      else
        var fields := [[s[0]] + rest[0]] + rest[1..];
        assert fields[1..] == rest[1..];
        fields
  }

  /** How many times `c` occurs in `s`. */
  function Occurrences(s: string, c: char): nat
  {
    if s == [] then 0 else (if s[0] == c then 1 else 0) + Occurrences(s[1..], c)
  }

  /** `sep.join(fields)`: the pieces with one separator between neighbours. */
  function Join(fields: seq<string>, sep: char): string
    requires |fields| >= 1
  {
    if |fields| == 1 then fields[0] else fields[0] + [sep] + Join(fields[1..], sep)
  }

  /** A separator in front of a text adds one empty piece in front. */
  lemma SplitAfterSep(r: string, sep: char)
    ensures Split([sep] + r, sep) == [""] + Split(r, sep)
  {
    assert ([sep] + r)[1..] == r;
  }

  /** Joining two or more pieces puts the first piece and a separator in
      front of the join of the others. */
  lemma JoinFirst(fields: seq<string>, sep: char)
    requires |fields| >= 2
    ensures Join(fields, sep) == fields[0] + ([sep] + Join(fields[1..], sep))
  {
    assert fields[0] + [sep] + Join(fields[1..], sep) == fields[0] + ([sep] + Join(fields[1..], sep));
  }

  /** Any other character in front of a text joins the first piece. */
  lemma SplitAfterChar(c: char, r: string, sep: char)
    requires c != sep
    ensures Split([c] + r, sep) == [[c] + Split(r, sep)[0]] + Split(r, sep)[1..]
  {
    assert ([c] + r)[1..] == r;
  }

  /** Splitting a text that starts with a separator-free piece `a` puts `a`
      in front of the first piece of the rest. */
  lemma {:induction false} SplitAfterPiece(a: string, t: string, sep: char)
    requires sep !in a
    ensures Split(a + t, sep) == [a + Split(t, sep)[0]] + Split(t, sep)[1..]
    decreases |a|
  {
    var T := Split(t, sep);
    if a != [] {
      SplitAfterPiece(a[1..], t, sep);
      var R := Split(a[1..] + t, sep);
      assert a + t == [a[0]] + (a[1..] + t);
      SplitAfterChar(a[0], a[1..] + t, sep);
      assert [a[0]] + (a[1..] + T[0]) == a + T[0];
    } else {
      assert a + t == t;
      assert a + T[0] == T[0];
    }
  }

  /** Split undoes Join whenever no piece holds the separator. */
  lemma {:induction false} SplitJoin(fields: seq<string>, sep: char)
    requires |fields| >= 1
    requires forall k :: 0 <= k < |fields| ==> sep !in fields[k]
    ensures Split(Join(fields, sep), sep) == fields
  {
    var a := fields[0];
    if |fields| == 1 {
      SplitAfterPiece(a, "", sep);
      assert a + "" == a;
    } else {
      var tail := fields[1..];
      var rest := Join(tail, sep);
      SplitJoin(tail, sep);
      SplitAfterSep(rest, sep);
      JoinFirst(fields, sep);
      SplitAfterPiece(a, [sep] + rest, sep);
      assert a + "" == a;
      assert fields == [a] + tail;
    }
  }

  /** Join undoes Split: the pieces of `s` joined by the separator give
      back `s`. */
  lemma {:induction false} JoinSplit(s: string, sep: char)
    ensures Join(Split(s, sep), sep) == s
    decreases |s|
  {
    if s != [] {
      var rest := Split(s[1..], sep);
      JoinSplit(s[1..], sep);
      assert s == [s[0]] + s[1..];
      if s[0] == sep {
        JoinFirst([""] + rest, sep);
        assert ([""] + rest)[1..] == rest;
      } else if |rest| == 1 {
        assert Split(s, sep) == [[s[0]] + rest[0]];
      } else {
        var fields := [[s[0]] + rest[0]] + rest[1..];
        JoinFirst(fields, sep);
        JoinFirst(rest, sep);
        assert fields[1..] == rest[1..];
      }
    }
  }

  /** Three separator-free pieces joined by `sep` split back into exactly
      those three pieces. */
  lemma SplitThree(a: string, b: string, c: string, sep: char)
    requires sep !in a && sep !in b && sep !in c
    ensures Split(a + [sep] + b + [sep] + c, sep) == [a, b, c]
  {
    var fields := [a, b, c];
    JoinFirst(fields, sep);
    assert fields[1..] == [b, c];
    JoinFirst([b, c], sep);
    assert [b, c][1..] == [c];
    assert Join(fields, sep) == a + [sep] + b + [sep] + c;
    SplitJoin(fields, sep);
  }

  /** `c.upper()` for an ASCII letter; every other character is kept. */
  function UpperChar(c: char): char
  {
    if 'a' <= c <= 'z' then (c as int - 32) as char else c
  }

  /** `s.upper()`, character by character on ASCII: the result has the
      same length, no lower-case ASCII letter, and the same characters as
      `s` everywhere except at the lower-case letters. */
  function Upper(s: string): (u: string)
    ensures |u| == |s|
    ensures forall i :: 0 <= i < |u| ==> !('a' <= u[i] <= 'z')
    ensures forall i :: 0 <= i < |s| ==> (u[i] == s[i] <==> !('a' <= s[i] <= 'z'))
    ensures forall i :: 0 <= i < |s| ==> u[i] == UpperChar(s[i])
  {
    seq(|s|, i requires 0 <= i < |s| => UpperChar(s[i]))
  }

  /** Upper-casing twice is upper-casing once. */
  lemma UpperIdempotent(s: string)
    ensures Upper(Upper(s)) == Upper(s)
  {
  }
}
