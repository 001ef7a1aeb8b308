/**
 * Small string utilities shared by the e-mail recogniser and the
 * string-to-number conversion: an optional value, splitting a string at a
 * separator character, joining the pieces back, and finding the last
 * occurrence of a character.
 */
module Sequences {

  datatype Option<+T> = None | Some(value: T)

  /** The pieces of `s` between occurrences of `sep`, in order; empty pieces
      are kept, so a string with n separators has n + 1 pieces. */
  function Split(s: string, sep: char): (parts: seq<string>)
    ensures |parts| > 0
    ensures forall k :: 0 <= k < |parts| ==> sep !in parts[k]
    decreases |s|
  {
    if s == [] then [[]]
    else
      var rest := Split(s[1..], sep);
      if s[0] == sep then [[]] + rest
      else [[s[0]] + rest[0]] + rest[1..]
  }

  /** The pieces glued back together with one `sep` between neighbours. */
  function Join(parts: seq<string>, sep: char): string
  {
    if parts == [] then []
    else if |parts| == 1 then parts[0]
    else parts[0] + [sep] + Join(parts[1..], sep)
  }

  /** Joining the pieces of a split gives back the string. */
  lemma {:induction false} JoinSplit(s: string, sep: char)
    ensures Join(Split(s, sep), sep) == s
    decreases |s|
  {
    if s != [] {
      JoinSplit(s[1..], sep);
      var rest := Split(s[1..], sep);
      if s[0] != sep && |rest| > 1 {
        assert Join(rest, sep) == rest[0] + [sep] + Join(rest[1..], sep);
        assert ([s[0]] + rest[0]) + [sep] + Join(rest[1..], sep) == [s[0]] + Join(rest, sep);
      }
      assert s == [s[0]] + s[1..];
    }
  }

  /** A string without the separator is a single piece. */
  lemma {:induction false} SplitNoSeparator(p: string, sep: char)
    requires sep !in p
    ensures Split(p, sep) == [p]
    decreases |p|
  {
    if p != [] {
      SplitNoSeparator(p[1..], sep);
      assert [p[0]] + p[1..] == p;
    }
  }

  /** Splitting at a separator occurrence splits the two sides apart. */
  lemma {:induction false} SplitAround(t: string, sep: char, u: string)
    ensures Split(t + [sep] + u, sep) == Split(t, sep) + Split(u, sep)
    decreases |t|
  {
    var s := t + [sep] + u;
    if t == [] {
      assert s == [sep] + u && s[1..] == u;
    } else {
      SplitAround(t[1..], sep, u);
      assert s[1..] == t[1..] + [sep] + u && s[0] == t[0];
      var rest := Split(s[1..], sep);
      var left := Split(t[1..], sep);
      var right := Split(u, sep);
      assert rest == left + right;
      if t[0] == sep {
        assert Split(s, sep) == [[]] + rest;
        assert Split(t, sep) == [[]] + left;
      } else {
        assert Split(s, sep) == [[t[0]] + rest[0]] + rest[1..];
        assert Split(t, sep) == [[t[0]] + left[0]] + left[1..];
        assert rest[0] == left[0];
        assert rest[1..] == left[1..] + right;
      }
    }
  }

  /** Splitting a join of separator-free pieces gives back the pieces. */
  lemma {:induction false} SplitJoin(parts: seq<string>, sep: char)
    requires |parts| > 0
    requires forall k :: 0 <= k < |parts| ==> sep !in parts[k]
    ensures Split(Join(parts, sep), sep) == parts
    decreases |parts|
  {
    SplitNoSeparator(parts[0], sep);
    if |parts| > 1 {
      SplitJoin(parts[1..], sep);
      SplitAround(parts[0], sep, Join(parts[1..], sep));
      assert parts == [parts[0]] + parts[1..];
    }
  }

  /** The piece after the last separator is the last piece. */
  lemma SplitLast(t: string, sep: char, u: string)
    requires sep !in u
    ensures Split(t + [sep] + u, sep)[|Split(t + [sep] + u, sep)| - 1] == u
  {
    SplitAround(t, sep, u);
    SplitNoSeparator(u, sep);
  }

  /** Two separators in a row leave an empty piece between them. */
  lemma SplitDoubleSeparator(t: string, sep: char, u: string)
    ensures [] in Split(t + [sep, sep] + u, sep)
  {
    assert t + [sep, sep] + u == t + [sep] + ([] + [sep] + u);
    SplitAround(t, sep, [] + [sep] + u);
    SplitAround([], sep, u);
    assert Split(t + [sep, sep] + u, sep)[|Split(t, sep)|] == [];
  }

  /** Every character of a join is the separator or a character of a piece. */
  lemma {:induction false} JoinChars(parts: seq<string>, sep: char, c: char)
    requires c in Join(parts, sep)
    ensures c == sep || exists k :: 0 <= k < |parts| && c in parts[k]
    decreases |parts|
  {
    if |parts| > 1 {
      var tail := Join(parts[1..], sep);
      assert Join(parts, sep) == parts[0] + [sep] + tail;
      if c in tail {
        JoinChars(parts[1..], sep, c);
        if c != sep {
          var k :| 0 <= k < |parts[1..]| && c in parts[1..][k];
          assert c in parts[k + 1];
        }
      } else if c != sep {
        assert c in parts[0];
      }
    } else {
      assert c in parts[0];
    }
  }

  /** The position of the last occurrence of `c` in `s`, if any. */
  function LastIndexOf(s: string, c: char): (r: Option<nat>)
    ensures r.None? <==> c !in s
    ensures r.Some? ==> r.value < |s| && s[r.value] == c && c !in s[r.value + 1..]
    decreases |s|
  {
    if s == [] then None
    else if s[|s| - 1] == c then Some(|s| - 1)
    else
      var r := LastIndexOf(s[..|s| - 1], c);
      assert s == s[..|s| - 1] + [s[|s| - 1]];
      if r.Some? then
        assert s[r.value + 1..] == s[..|s| - 1][r.value + 1..] + [s[|s| - 1]];
        r
      else r
  }

  /** An occurrence of `c` with no `c` after it is the last one. */
  lemma LastIndexOfUnique(s: string, c: char, i: nat)
    requires i < |s| && s[i] == c && c !in s[i + 1..]
    ensures LastIndexOf(s, c) == Some(i)
  {
  }
}
