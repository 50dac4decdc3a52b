/**
 * The parts of Go's `strings` package that the YAML front end relies on:
 * `Split`, `Join`, `TrimSpace`, `TrimLeft`, `ReplaceAll`, `HasPrefix`,
 * `HasSuffix` and `TrimSuffix`, each specialised to the way it is called
 * (single-character separators and cutsets).
 */
module GoStrings {

  /** Go's `unicode.IsSpace`: the ASCII white space characters, NEL, NBSP
      and the Unicode White_Space characters outside Latin-1. */
  predicate IsSpace(c: char) {
    || c == '\t' || c == '\n' || c == '\U{000B}' || c == '\U{000C}' || c == '\r' || c == ' '
    || c == '\U{0085}' || c == '\U{00A0}'
    || c == '\U{1680}' || ('\U{2000}' <= c <= '\U{200A}')
    || c == '\U{2028}' || c == '\U{2029}' || c == '\U{202F}' || c == '\U{205F}' || c == '\U{3000}'
  }

  predicate HasPrefix(s: string, prefix: string) {
    |prefix| <= |s| && s[..|prefix|] == prefix
  }

  predicate HasSuffix(s: string, suffix: string) {
    |suffix| <= |s| && s[|s| - |suffix|..] == suffix
  }

  /** A string with no white space at either end. */
  predicate SpaceTrimmed(s: string) {
    s == [] || (!IsSpace(s[0]) && !IsSpace(s[|s| - 1]))
  }

  /** `r` is the slice of `s` starting at `a`, and everything around it is white space. */
  predicate SpaceMargins(s: string, r: string, a: int) {
    && 0 <= a <= |s| - |r| && r == s[a..a + |r|]
    && (forall i :: 0 <= i < a ==> IsSpace(s[i]))
    && (forall i :: a + |r| <= i < |s| ==> IsSpace(s[i]))
  }

  /** `strings.TrimLeftFunc`: drops the longest prefix whose characters all satisfy `f`. */
  function TrimLeftFunc(s: string, f: char -> bool): (r: string)
    ensures HasSuffix(s, r)
    ensures forall i :: 0 <= i < |s| - |r| ==> f(s[i])
    ensures r == [] || !f(r[0])
  {
    if s == [] || !f(s[0]) then s else TrimLeftFunc(s[1..], f)
  }

  /** `strings.TrimRightFunc`: drops the longest suffix whose characters all satisfy `f`. */
  function TrimRightFunc(s: string, f: char -> bool): (r: string)
    ensures HasPrefix(s, r)
    ensures forall i :: |r| <= i < |s| ==> f(s[i])
    ensures r == [] || !f(r[|r| - 1])
  {
    if s == [] || !f(s[|s| - 1]) then s else TrimRightFunc(s[..|s| - 1], f)
  }

  /** `strings.TrimSpace`: removes leading and trailing white space and nothing else. */
  function TrimSpace(s: string): (r: string)
    ensures SpaceTrimmed(r)
    ensures exists a :: SpaceMargins(s, r, a)
  {
    var left := TrimLeftFunc(s, IsSpace);
    var r := TrimRightFunc(left, IsSpace);
    TrimmedBothEnds(s, left, r);
    r
  }

  /** Dropping white space on the left and then on the right leaves a slice
      with white space around it. */
  lemma TrimmedBothEnds(s: string, left: string, r: string)
    requires HasSuffix(s, left) && forall i :: 0 <= i < |s| - |left| ==> IsSpace(s[i])
    requires HasPrefix(left, r) && forall i :: |r| <= i < |left| ==> IsSpace(left[i])
    ensures SpaceMargins(s, r, |s| - |left|)
  {
    var a := |s| - |left|;
    forall i | a + |r| <= i < |s|
      ensures IsSpace(s[i])
    {
      assert s[i] == left[i - a];
    }
    assert r == left[..|r|];
    assert s[a..a + |r|] == left[..|r|];
  }

  /** `strings.TrimLeft(s, "#")`: removes every leading `#`. */
  function TrimLeftHash(s: string): (r: string)
    ensures HasSuffix(s, r)
    ensures forall i :: 0 <= i < |s| - |r| ==> s[i] == '#'
    ensures r == [] || r[0] != '#'
  {
    TrimLeftFunc(s, c => c == '#')
  }

  /** `strings.ReplaceAll(s, [from], [to])` for one-character patterns. */
  function ReplaceAll(s: string, from: char, to: char): (r: string)
    ensures |r| == |s|
    ensures from != to ==> from !in r
    ensures forall i :: 0 <= i < |s| && s[i] != from ==> r[i] == s[i]
    ensures forall i :: 0 <= i < |s| && s[i] == from ==> r[i] == to
  {
    seq(|s|, i requires 0 <= i < |s| => if s[i] == from then to else s[i])
  }

  /** `strings.TrimSuffix`. */
  function TrimSuffix(s: string, suffix: string): (r: string)
    ensures HasSuffix(s, suffix) ==> r + suffix == s
    ensures !HasSuffix(s, suffix) ==> r == s
  {
    if HasSuffix(s, suffix) then s[..|s| - |suffix|] else s
  }

  /** `strings.Split(s, [sep])`: the pieces between occurrences of `sep`.
      As in Go, the empty string splits into one empty piece. */
  function Split(s: string, sep: char): (r: seq<string>)
    ensures |r| >= 1
    ensures forall i :: 0 <= i < |r| ==> sep !in r[i]
  {
    if s == [] then [[]]
    else
      var rest := Split(s[1..], sep);
      if s[0] == sep then [[]] + rest
      else [[s[0]] + rest[0]] + rest[1..]
  }

  /** `strings.Join`: the parts in order with `sep` between neighbours. */
  function Join(parts: seq<string>, sep: string): string {
    if parts == [] then []
    else if |parts| == 1 then parts[0]
    else parts[0] + sep + Join(parts[1..], sep)
  }

  /** A join of at least one part begins with the first part and ends with the last. */
  lemma {:induction false} JoinEnds(parts: seq<string>, sep: string)
    requires |parts| >= 1
    ensures HasPrefix(Join(parts, sep), parts[0]) && HasSuffix(Join(parts, sep), parts[|parts| - 1])
  {
    if |parts| > 1 {
      var rest := parts[1..];
      JoinEnds(rest, sep);
      assert rest[|rest| - 1] == parts[|parts| - 1];
      JoinedEnds(parts[0], sep, Join(rest, sep), parts[|parts| - 1]);
    }
  }

  /** Putting a string and a separator in front keeps a suffix a suffix. */
  lemma JoinedEnds(first: string, sep: string, rest: string, last: string)
    requires HasSuffix(rest, last)
    ensures var r := first + sep + rest; HasPrefix(r, first) && HasSuffix(r, last)
  {
    var r := first + sep + rest;
    assert r[..|first|] == first;
    assert r[|r| - |last|..] == rest[|rest| - |last|..];
  }

  /** Joining one more part puts the separator and that part at the end. */
  lemma {:induction false} JoinSnoc(parts: seq<string>, sep: string, last: string)
    requires |parts| >= 1
    ensures Join(parts + [last], sep) == Join(parts, sep) + sep + last
  {
    var all := parts + [last];
    assert all[0] == parts[0] && |all| > 1;
    if |parts| > 1 {
      var a := parts[0];
      var b := Join(parts[1..], sep);
      assert all[1..] == parts[1..] + [last];
      JoinSnoc(parts[1..], sep, last);
      calc {
        Join(all, sep);
        a + sep + Join(parts[1..] + [last], sep);
        a + sep + (b + sep + last);
        (a + sep + b) + sep + last;
        Join(parts, sep) + sep + last;
      }
    } else {
      assert all[1..] == [last];
      assert Join(all, sep) == parts[0] + sep + Join([last], sep);
    }
  }

  /** Splitting on `sep` and joining with `sep` gives back the original string. */
  lemma {:induction false} SplitJoin(s: string, sep: char)
    ensures Join(Split(s, sep), [sep]) == s
  {
    if s != [] {
      var rest := Split(s[1..], sep);
      SplitJoin(s[1..], sep);
      if s[0] == sep {
        assert Split(s, sep) == [[]] + rest;
      } else {
        var r := [[s[0]] + rest[0]] + rest[1..];
        assert Split(s, sep) == r;
        if |rest| == 1 {
          assert Join(rest, [sep]) == rest[0];
        } else {
          assert Join(rest, [sep]) == rest[0] + [sep] + Join(rest[1..], [sep]);
          assert r[1..] == rest[1..];
        }
      }
    }
  }

  /** A string without `sep` is its own single piece. */
  lemma {:induction false} SplitWithoutSep(s: string, sep: char)
    requires sep !in s
    ensures Split(s, sep) == [s]
  {
    if s != [] {
      SplitWithoutSep(s[1..], sep);
      assert [s[0]] + s[1..] == s;
    }
  }

  /** A separator in the middle splits the string into the pieces of each side. */
  lemma {:induction false} SplitAround(x: string, y: string, sep: char)
    ensures Split(x + [sep] + y, sep) == Split(x, sep) + Split(y, sep)
  {
    var s := x + [sep] + y;
    if x == [] {
      assert s[0] == sep && s[1..] == y;
    } else {
      SplitAround(x[1..], y, sep);
      assert s[0] == x[0] && s[1..] == x[1..] + [sep] + y;
    }
  }

  /** Joining separator-free pieces and splitting again gives back the pieces. */
  lemma {:induction false} JoinSplit(parts: seq<string>, sep: char)
    requires |parts| >= 1
    requires forall i :: 0 <= i < |parts| ==> sep !in parts[i]
    ensures Split(Join(parts, [sep]), sep) == parts
  {
    if |parts| == 1 {
      SplitWithoutSep(parts[0], sep);
    } else {
      JoinSplit(parts[1..], sep);
      SplitAround(parts[0], Join(parts[1..], [sep]), sep);
      SplitWithoutSep(parts[0], sep);
      assert [parts[0]] + parts[1..] == parts;
    }
  }

  /** A character missing from two strings is missing from their concatenation. */
  lemma NotInConcat(a: string, b: string, ch: char)
    requires ch !in a && ch !in b
    ensures ch !in a + b
  {
  }

  /** A character missing from a string is missing from every slice of it. */
  lemma NotInSlice(s: string, ch: char, a: int, b: int)
    requires 0 <= a <= b <= |s| && ch !in s
    ensures ch !in s[a..b]
  {
    forall i | 0 <= i < b - a
      ensures s[a..b][i] != ch
    {
      assert s[a..b][i] == s[a + i];
    }
  }

  /** Trimming white space from a string that has none at its ends changes nothing. */
  lemma TrimSpaceOfTrimmed(s: string)
    requires SpaceTrimmed(s)
    ensures TrimSpace(s) == s
  {
  }
}
