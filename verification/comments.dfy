/**
 * Documentation extraction: the `//` lines a field's doc string is made of,
 * taken from the comments around its key and from the value's literal.
 */
module Comments {
  import opened GoStrings
  import opened YamlNode

  /** The blank doc line that separates comments from the default-value lines. */
  const Separator: string := "//"

  /** The line that announces the defaults of a sequence of scalars. */
  const DefaultHeader: string := "// Default value in yaml:"

  /** One comment line as a doc line: white space trimmed first, then every
      leading `#` removed, so `# x` becomes `//  x`. */
  function DocLine(piece: string): (r: string)
    ensures HasPrefix(r, "// ")
  {
    "// " + TrimLeftHash(TrimSpace(piece))
  }

  /** A doc line made from one line of a comment is still one line. */
  lemma DocLineSingle(piece: string)
    requires '\n' !in piece
    ensures '\n' !in DocLine(piece)
  {
    var trimmed := TrimSpace(piece);
    var a :| SpaceMargins(piece, trimmed, a);
    NotInSlice(piece, '\n', a, a + |trimmed|);
    var text := TrimLeftHash(trimmed);
    NotInSlice(trimmed, '\n', |trimmed| - |text|, |trimmed|);
    assert DocLine(piece) == "// " + text;
    assert '\n' !in "// ";
  }

  /** How many doc lines a comment yields: one per line, none when empty. */
  function PieceCount(comment: string): nat {
    if comment == [] then 0 else |Split(comment, '\n')|
  }

  /** The doc lines of one comment, in order. */
  function CommentLines(comment: string): (r: seq<string>)
    ensures |r| == PieceCount(comment)
    ensures forall i :: 0 <= i < |r| ==> HasPrefix(r[i], "// ") && '\n' !in r[i]
  {
    if comment == [] then []
    else
      var pieces := Split(comment, '\n');
      seq(|pieces|, i requires 0 <= i < |pieces| => DocLine(pieces[i]))
  }

  /** The lines that record a value's default: its literal when it has one,
      or one line per element for a sequence of leaves. `separate` asks for a
      blank doc line first. */
  function DefaultLines(val: Node, separate: bool): (r: seq<string>)
    ensures forall i :: 0 <= i < |r| ==> HasPrefix(r[i], "//")
  {
    var sep := if separate then [Separator] else [];
    if Value(val) != "" then
      sep + ["// Default value in yaml: " + Value(val)]
    else if val.Sequence? && |val.items| != 0 && ContentLength(val.items[0]) == 0 then
      sep + [DefaultHeader] + seq(|val.items|, i requires 0 <= i < |val.items| => "// - " + Value(val.items[i]))
    else []
  }

  /** The number of comment lines a key contributes. */
  function CommentCount(key: Node): nat {
    PieceCount(key.comments.head) + PieceCount(key.comments.line) + PieceCount(key.comments.foot)
  }

  /** The doc lines of a field: the key's head, line and foot comments, then
      the value's default. */
  function ExtractComments(key: Node, val: Node): (r: seq<string>)
    ensures |r| >= CommentCount(key)
    ensures forall i :: 0 <= i < |r| ==> HasPrefix(r[i], "//")
    ensures forall i :: 0 <= i < CommentCount(key) ==> HasPrefix(r[i], "// ") && '\n' !in r[i]
  {
    var hs := CommentLines(key.comments.head);
    var ls := CommentLines(key.comments.line);
    var fs := CommentLines(key.comments.foot);
    var lines := hs + ls + fs;
    forall i | 0 <= i < |lines|
      ensures HasPrefix(lines[i], "// ") && '\n' !in lines[i]
    {
      if i < |hs| {
        assert lines[i] == hs[i];
      } else if i < |hs| + |ls| {
        assert lines[i] == ls[i - |hs|];
      } else {
        assert lines[i] == fs[i - |hs| - |ls|];
      }
    }
    lines + DefaultLines(val, |lines| != 0)
  }

  /** Each line of a non-empty comment becomes one doc line, in order. */
  lemma CommentLinesPieces(comment: string, i: nat)
    requires comment != [] && i < |Split(comment, '\n')|
    ensures CommentLines(comment)[i] == DocLine(Split(comment, '\n')[i])
  {
  }

  /** The comment lines come first: the head comment's, then the line
      comment's, then the foot comment's. */
  lemma CommentOrder(key: Node, val: Node)
    ensures var r := ExtractComments(key, val);
      var h := PieceCount(key.comments.head);
      var l := PieceCount(key.comments.line);
      var f := PieceCount(key.comments.foot);
      && r[..h] == CommentLines(key.comments.head)
      && r[h..h + l] == CommentLines(key.comments.line)
      && r[h + l..h + l + f] == CommentLines(key.comments.foot)
  {
    var hs := CommentLines(key.comments.head);
    var ls := CommentLines(key.comments.line);
    var fs := CommentLines(key.comments.foot);
    var d := DefaultLines(val, |hs + ls + fs| != 0);
    assert ExtractComments(key, val) == hs + ls + fs + d;
    ConcatSlices(hs, ls, fs, d);
  }

  /** Each part of a concatenation is the slice at its place. */
  lemma ConcatSlices<T>(a: seq<T>, b: seq<T>, c: seq<T>, d: seq<T>)
    ensures var r := a + b + c + d;
      && r[..|a|] == a
      && r[|a|..|a| + |b|] == b
      && r[|a| + |b|..|a| + |b| + |c|] == c
  {
    var r := a + b + c + d;
    assert r[..|a|] == a;
    assert r[|a|..|a| + |b|] == b;
    assert r[|a| + |b|..|a| + |b| + |c|] == c;
  }

  /** After the comments: a value with a literal adds a separator (only when
      there are comments) and its default; a non-empty sequence whose first
      element has no children adds a separator, a header and one line per
      element; anything else adds nothing. */
  lemma DefaultValueLines(key: Node, val: Node)
    ensures var r := ExtractComments(key, val);
      var n := CommentCount(key);
      var s := if n > 0 then 1 else 0;
      && (Value(val) != "" ==>
            |r| == n + s + 1 && r[|r| - 1] == "// Default value in yaml: " + Value(val) &&
            (n > 0 ==> r[n] == Separator))
      && (Value(val) == "" && val.Sequence? && |val.items| > 0 && ContentLength(val.items[0]) == 0 ==>
            |r| == n + s + 1 + |val.items| && r[n + s] == DefaultHeader &&
            (n > 0 ==> r[n] == Separator) &&
            (forall i :: 0 <= i < |val.items| ==> r[n + s + 1 + i] == "// - " + Value(val.items[i])))
      && (Value(val) == "" && !(val.Sequence? && |val.items| > 0 && ContentLength(val.items[0]) == 0) ==>
            |r| == n)
  {
    if Value(val) != "" {
      LiteralDefault(key, val);
    } else if val.Sequence? && |val.items| > 0 && ContentLength(val.items[0]) == 0 {
      ElementDefaults(key, val);
    } else {
      AfterComments(key, val);
    }
  }

  /** A value with a literal: an optional separator, then the literal. */
  lemma LiteralDefault(key: Node, val: Node)
    requires Value(val) != ""
    ensures var r := ExtractComments(key, val);
      var n := CommentCount(key);
      && |r| == n + (if n > 0 then 1 else 0) + 1
      && r[|r| - 1] == "// Default value in yaml: " + Value(val)
      && (n > 0 ==> r[n] == Separator)
  {
    var r := ExtractComments(key, val);
    var n := CommentCount(key);
    AfterComments(key, val);
    assert r[n..][|r| - 1 - n] == r[|r| - 1];
    if n > 0 {
      assert r[n..][0] == r[n];
    }
  }

  /** A sequence of leaves: an optional separator, the header, then one line
      per element. */
  lemma ElementDefaults(key: Node, val: Node)
    requires Value(val) == "" && val.Sequence? && |val.items| > 0 && ContentLength(val.items[0]) == 0
    ensures var r := ExtractComments(key, val);
      var n := CommentCount(key);
      var s := if n > 0 then 1 else 0;
      && |r| == n + s + 1 + |val.items|
      && r[n + s] == DefaultHeader
      && (n > 0 ==> r[n] == Separator)
      && (forall i :: 0 <= i < |val.items| ==> r[n + s + 1 + i] == "// - " + Value(val.items[i]))
  {
    var r := ExtractComments(key, val);
    var n := CommentCount(key);
    AfterComments(key, val);
    ElementLines(val, n != 0);
    DropIndex(r, n);
  }

  /** The default lines of a sequence of leaves. */
  lemma ElementLines(val: Node, separate: bool)
    requires Value(val) == "" && val.Sequence? && |val.items| > 0 && ContentLength(val.items[0]) == 0
    ensures var d := DefaultLines(val, separate);
      var s := if separate then 1 else 0;
      && |d| == s + 1 + |val.items|
      && d[s] == DefaultHeader
      && (separate ==> d[0] == Separator)
      && (forall i :: 0 <= i < |val.items| ==> d[s + 1 + i] == "// - " + Value(val.items[i]))
  {
  }

  /** Indexing past a drop is indexing the original further on. */
  lemma DropIndex<T>(r: seq<T>, n: nat)
    requires n <= |r|
    ensures forall i :: 0 <= i < |r| - n ==> r[n..][i] == r[n + i]
  {
  }

  /** The default lines follow the comment lines. */
  lemma AfterComments(key: Node, val: Node)
    ensures ExtractComments(key, val)[CommentCount(key)..] == DefaultLines(val, CommentCount(key) != 0)
  {
    var lines := CommentLines(key.comments.head) + CommentLines(key.comments.line) + CommentLines(key.comments.foot);
    assert |lines| == CommentCount(key);
    assert ExtractComments(key, val) == lines + DefaultLines(val, |lines| != 0);
  }

  /** A comment line with no surrounding white space and no leading `#`. */
  predicate CleanPiece(piece: string) {
    SpaceTrimmed(piece) && (piece == [] || piece[0] != '#')
  }

  /** The text of a doc line without its `// ` prefix. */
  function StripDocPrefix(line: string): (r: string)
    requires HasPrefix(line, "// ")
    ensures "// " + r == line
  {
    line[3..]
  }

  /** A clean comment line is copied verbatim behind `// `. */
  lemma DocLineOfClean(piece: string)
    requires CleanPiece(piece)
    ensures DocLine(piece) == "// " + piece
  {
    TrimSpaceOfTrimmed(piece);
  }

  /** The texts of doc lines, without their `// ` prefixes. */
  function Texts(lines: seq<string>): (r: seq<string>)
    requires forall i :: 0 <= i < |lines| ==> HasPrefix(lines[i], "// ")
    ensures |r| == |lines|
    ensures forall i :: 0 <= i < |lines| ==> "// " + r[i] == lines[i]
  {
    seq(|lines|, i requires 0 <= i < |lines| => StripDocPrefix(lines[i]))
  }

  /** The doc lines of a clean comment carry exactly its lines. */
  lemma TextsOfClean(comment: string)
    requires comment != []
    requires forall i :: 0 <= i < |Split(comment, '\n')| ==> CleanPiece(Split(comment, '\n')[i])
    ensures Texts(CommentLines(comment)) == Split(comment, '\n')
  {
    var pieces := Split(comment, '\n');
    var texts := Texts(CommentLines(comment));
    forall i | 0 <= i < |pieces|
      ensures texts[i] == pieces[i]
    {
      CommentLinesPieces(comment, i);
      DocLineOfClean(pieces[i]);
      assert "// " + texts[i] == "// " + pieces[i];
    }
  }

  /** Nothing of a clean comment is lost: removing the `// ` prefixes from its
      doc lines and joining them with newlines gives back the comment. */
  lemma CommentRoundTrip(comment: string)
    requires comment != []
    requires forall i :: 0 <= i < |Split(comment, '\n')| ==> CleanPiece(Split(comment, '\n')[i])
    ensures Join(Texts(CommentLines(comment)), "\n") == comment
  {
    TextsOfClean(comment);
    SplitJoin(comment, '\n');
  }

  /** The `#` is removed only after trimming, so the space behind it stays:
      `# x` becomes `//  x`. */
  lemma HashThenSpace(text: string)
    requires text != [] && !IsSpace(text[|text| - 1])
    ensures DocLine("# " + text) == "//  " + text
  {
    var piece := "# " + text;
    var rest := " " + text;
    assert piece == ['#'] + rest;
    assert SpaceTrimmed(piece);
    TrimSpaceOfTrimmed(piece);
    OneHash(rest);
    assert "// " + rest == "//  " + text;
  }

  /** A single leading `#` in front of something else is all `TrimLeft` removes. */
  lemma OneHash(rest: string)
    requires rest != [] && rest[0] != '#'
    ensures TrimLeftHash(['#'] + rest) == rest
  {
    assert (['#'] + rest)[1..] == rest;
  }

  /** No literal the default lines quote spans several lines. */
  predicate SingleLineDefaults(val: Node) {
    && '\n' !in Value(val)
    && (val.Sequence? ==> forall i :: 0 <= i < |val.items| ==> '\n' !in Value(val.items[i]))
  }

  lemma DefaultLinesSingle(val: Node, separate: bool)
    requires SingleLineDefaults(val)
    ensures forall i :: 0 <= i < |DefaultLines(val, separate)| ==> '\n' !in DefaultLines(val, separate)[i]
  {
    var d := DefaultLines(val, separate);
    var s := if separate then 1 else 0;
    if Value(val) != "" {
      NotInConcat("// Default value in yaml: ", Value(val), '\n');
      assert d[s] == "// Default value in yaml: " + Value(val);
    } else if val.Sequence? && |val.items| != 0 && ContentLength(val.items[0]) == 0 {
      forall i | s + 1 <= i < |d|
        ensures '\n' !in d[i]
      {
        NotInConcat("// - ", Value(val.items[i - s - 1]), '\n');
        assert d[i] == "// - " + Value(val.items[i - s - 1]);
      }
    }
  }

  /** The doc string of a field, its doc lines joined by newlines, splits back
      into those lines when no quoted literal spans several lines. */
  lemma DocStringLines(key: Node, val: Node)
    requires SingleLineDefaults(val) && ExtractComments(key, val) != []
    ensures Split(Join(ExtractComments(key, val), "\n"), '\n') == ExtractComments(key, val)
  {
    var r := ExtractComments(key, val);
    var n := CommentCount(key);
    var defaults := DefaultLines(val, n != 0);
    AfterComments(key, val);
    DefaultLinesSingle(val, n != 0);
    DropIndex(r, n);
    forall i | 0 <= i < |r|
      ensures '\n' !in r[i]
    {
      if i >= n {
        assert r[i] == defaults[i - n];
      }
    }
    JoinSplit(r, '\n');
  }

  /** A default spanning two lines breaks that: for a key without comments,
      the doc string of the value `x` newline `y` splits into a comment line
      and the bare second line `y`. */
  lemma MultiLineDefault(key: Node, tag: string, x: string, y: string, c: Comments)
    requires key.comments == Comments("", "", "")
    requires '\n' !in x && '\n' !in y
    ensures Split(Join(ExtractComments(key, Scalar(tag, x + "\n" + y, c)), "\n"), '\n')
         == ["// Default value in yaml: " + x, y]
  {
    var head := "// Default value in yaml: " + x;
    var val := Scalar(tag, x + "\n" + y, c);
    assert CommentLines(key.comments.head) == [] && CommentLines(key.comments.line) == []
        && CommentLines(key.comments.foot) == [];
    assert DefaultLines(val, false) == ["// Default value in yaml: " + (x + "\n" + y)];
    assert "// Default value in yaml: " + (x + "\n" + y) == head + "\n" + y;
    assert ExtractComments(key, val) == [] + DefaultLines(val, false);
    assert '\n' !in head by {
      assert forall ch :: ch in head ==> ch in "// Default value in yaml: " || ch in x;
    }
    SplitAround(head, y, '\n');
    SplitWithoutSep(head, '\n');
    SplitWithoutSep(y, '\n');
  }
}
