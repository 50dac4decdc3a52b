/**
 * The parts of Go's `path/filepath` and `path` packages the front end uses
 * to name its output: `filepath.Base`, `filepath.Ext` (with `/` as the only
 * separator), `path.Join` for two elements and `path.Clean`.
 */
module GoPaths {
  import opened GoStrings

  /** The final element of `s`: everything after its last `/`. */
  function AfterLastSlash(s: string): (r: string)
    ensures HasSuffix(s, r)
    ensures '/' !in r
    ensures |r| < |s| ==> s[|s| - |r| - 1] == '/'
  {
    if s == [] || s[|s| - 1] == '/' then []
    else AfterLastSlash(s[..|s| - 1]) + [s[|s| - 1]]
  }

  /** `filepath.Base`: the last element of the path after trailing slashes are
      removed; `"."` for the empty path and `"/"` for a path of slashes only. */
  function Base(path: string): (r: string)
    ensures r != []
    ensures path == [] ==> r == "."
    ensures path != [] && (forall i :: 0 <= i < |path| ==> path[i] == '/') ==> r == "/"
    ensures (exists i :: 0 <= i < |path| && path[i] != '/') ==> '/' !in r
    ensures (exists i :: 0 <= i < |path| && path[i] != '/') ==> LastElement(path, r)
  {
    if path == [] then "."
    else
      var stripped := TrimRightFunc(path, c => c == '/');
      if stripped == [] then "/"
      else
        var r := AfterLastSlash(stripped);
        assert path[..|stripped|] == stripped;
        assert LastElementAt(path, r, |stripped|);
        r
  }

  /** `r` is the last element of `path` once the trailing slashes are
      dropped: there is a last non-slash character at `k - 1`, and `r` ends
      there and starts just after a slash or at the start of the path. */
  predicate LastElement(path: string, r: string) {
    exists k :: 0 < k <= |path| && LastElementAt(path, r, k)
  }

  predicate LastElementAt(path: string, r: string, k: int) {
    && 0 < k <= |path| && path[k - 1] != '/'
    && (forall i :: k <= i < |path| ==> path[i] == '/')
    && HasSuffix(path[..k], r)
    && (|r| < k ==> path[k - |r| - 1] == '/')
  }

  /** `filepath.Ext`: the suffix of the path starting at the last dot of its
      final element, or empty when that element has no dot. */
  function Ext(path: string): (r: string)
    ensures HasSuffix(path, r)
    ensures r == [] || (r[0] == '.' && '/' !in r && '.' !in r[1..])
    ensures r == [] <==> '.' !in AfterLastSlash(path)
  {
    if path == [] || path[|path| - 1] == '/' then []
    else if path[|path| - 1] == '.' then "."
    else
      var e := Ext(path[..|path| - 1]);
      if e == [] then []
      else
        ExtendedExt(path, e);
        e + [path[|path| - 1]]
  }

  /** An extension of all but the last character, extended by that character,
      is still a dot-led suffix without other dots or slashes. */
  lemma ExtendedExt(path: string, e: string)
    requires path != [] && path[|path| - 1] != '/' && path[|path| - 1] != '.'
    requires HasSuffix(path[..|path| - 1], e)
    requires e != [] && e[0] == '.' && '/' !in e && '.' !in e[1..]
    ensures var r := e + [path[|path| - 1]];
      HasSuffix(path, r) && r[0] == '.' && '/' !in r && '.' !in r[1..]
  {
    var init := path[..|path| - 1];
    var c := path[|path| - 1];
    var r := e + [c];
    assert path == init + [c];
    assert path[|path| - |r|..] == init[|init| - |e|..] + [c];
    assert r[1..] == e[1..] + [c];
  }

  /** One step of `path.Clean` over the elements of a path: drop empty and
      `.` elements, let `..` cancel the previous real element, drop a `..`
      that would climb above the root, and keep a leading `..` of a
      relative path. */
  function Resolve(elems: seq<string>, rooted: bool, kept: seq<string>): seq<string>
  {
    if elems == [] then kept
    else
      var e := elems[0];
      if e == [] || e == "." then Resolve(elems[1..], rooted, kept)
      else if e == ".." then
        if |kept| > 0 && kept[|kept| - 1] != ".." then Resolve(elems[1..], rooted, kept[..|kept| - 1])
        else if rooted then Resolve(elems[1..], rooted, kept)
        else Resolve(elems[1..], rooted, kept + [".."])
      else Resolve(elems[1..], rooted, kept + [e])
  }

  /** `path.Clean`: the shortest lexically equivalent path. It is never
      empty, it is rooted exactly when the path is, and a plain last element
      stays the last element. */
  function Clean(path: string): (r: string)
    ensures r != []
    ensures path != [] ==> (r[0] == '/' <==> path[0] == '/')
    ensures var elems := Split(path, '/');
      PlainElement(elems[|elems| - 1]) ==> EndsWithElement(r, elems[|elems| - 1])
  {
    if path == [] then "."
    else
      var rooted := path[0] == '/';
      var body := Join(Resolve(Split(path, '/'), rooted, []), "/");
      CleanBody(path, rooted);
      if rooted then "/" + body
      else if body == [] then "."
      else body
  }

  /** `e` is the last element of `r`: a suffix that is all of `r` or follows a `/`. */
  predicate EndsWithElement(r: string, e: string) {
    HasSuffix(r, e) && (|r| == |e| || r[|r| - |e| - 1] == '/')
  }

  /** The elements `Resolve` keeps: non-empty and free of `/`. */
  predicate Elements(xs: seq<string>) {
    forall i :: 0 <= i < |xs| ==> xs[i] != [] && '/' !in xs[i]
  }

  /** The joined elements of a cleaned path do not start with `/`, and end
      with the path's last element when that is plain. */
  lemma CleanBody(path: string, rooted: bool)
    ensures var elems := Split(path, '/');
      var body := Join(Resolve(elems, rooted, []), "/");
      && (body != [] ==> body[0] != '/')
      && (PlainElement(elems[|elems| - 1]) ==> body != [] && EndsWithElement(body, elems[|elems| - 1]))
  {
    var elems := Split(path, '/');
    var kept := Resolve(elems, rooted, []);
    ResolveElements(elems, rooted, []);
    if kept != [] {
      JoinEnds(kept, "/");
      assert kept[0] != [] && '/' !in kept[0];
      assert Join(kept, "/")[0] == kept[0][0];
    }
    var n := |elems|;
    var e := elems[n - 1];
    if PlainElement(e) {
      assert elems == elems[..n - 1] + [e];
      ResolveSnoc(elems[..n - 1], rooted, [], e);
      var front := Resolve(elems[..n - 1], rooted, []);
      if front == [] {
        assert kept == [e];
      } else {
        JoinSnoc(front, "/", e);
        JoinEnds(kept, "/");
      }
    }
  }

  /** Elements split from a path stay elements through `Resolve`. */
  lemma {:induction false} ResolveElements(elems: seq<string>, rooted: bool, kept: seq<string>)
    requires forall i :: 0 <= i < |elems| ==> '/' !in elems[i]
    requires Elements(kept)
    ensures Elements(Resolve(elems, rooted, kept))
  {
    if elems != [] {
      var e := elems[0];
      var rest := elems[1..];
      assert forall i :: 0 <= i < |rest| ==> rest[i] == elems[i + 1];
      if e == [] || e == "." {
        ResolveElements(rest, rooted, kept);
      } else if e == ".." {
        if |kept| > 0 && kept[|kept| - 1] != ".." {
          ResolveElements(rest, rooted, kept[..|kept| - 1]);
        } else if rooted {
          ResolveElements(rest, rooted, kept);
        } else {
          ResolveElements(rest, rooted, kept + [".."]);
        }
      } else {
        ResolveElements(rest, rooted, kept + [e]);
      }
    }
  }

  /** A plain element at the end of the path is kept at the end. */
  lemma {:induction false} ResolveSnoc(elems: seq<string>, rooted: bool, kept: seq<string>, e: string)
    requires PlainElement(e)
    ensures Resolve(elems + [e], rooted, kept) == Resolve(elems, rooted, kept) + [e]
  {
    var all := elems + [e];
    if elems == [] {
      assert all == [e] && all[1..] == [];
    } else {
      var x := elems[0];
      var rest := elems[1..];
      assert all[0] == x && all[1..] == rest + [e];
      if x == [] || x == "." {
        ResolveSnoc(rest, rooted, kept, e);
      } else if x == ".." {
        if |kept| > 0 && kept[|kept| - 1] != ".." {
          ResolveSnoc(rest, rooted, kept[..|kept| - 1], e);
        } else if rooted {
          ResolveSnoc(rest, rooted, kept, e);
        } else {
          ResolveSnoc(rest, rooted, kept + [".."], e);
        }
      } else {
        ResolveSnoc(rest, rooted, kept + [x], e);
      }
    }
  }

  /** `path.Join(dir, elem)`: the non-empty arguments joined by `/`, cleaned;
      empty when both are empty. */
  function JoinPath(dir: string, elem: string): (r: string)
    ensures r == [] <==> dir == [] && elem == []
    ensures PlainElement(elem) ==> EndsWithElement(r, elem)
    ensures PlainElement(elem) ==> (r[0] == '/' <==> dir != [] && dir[0] == '/')
  {
    if |dir| + |elem| == 0 then []
    else
      var path := if dir != [] then dir + "/" + elem else elem;
      if '/' in elem then Clean(path)
      else
        JoinedLast(dir, elem);
        Clean(path)
  }

  /** An element without `/` is the last element of the joined path. */
  lemma JoinedLast(dir: string, elem: string)
    requires '/' !in elem
    ensures var elems := Split(if dir != [] then dir + "/" + elem else elem, '/');
      elems[|elems| - 1] == elem
  {
    SplitWithoutSep(elem, '/');
    if dir != [] {
      assert dir + "/" + elem == dir + ['/'] + elem;
      SplitAround(dir, elem, '/');
    }
  }

  /** A path element that cleaning leaves alone. */
  predicate PlainElement(e: string) {
    e != [] && e != "." && e != ".." && '/' !in e
  }

  /** A relative path made of plain elements only, such as `out/gen`. */
  predicate PlainRelative(p: string) {
    var elems := Split(p, '/');
    forall i :: 0 <= i < |elems| ==> PlainElement(elems[i])
  }

  /** Plain elements pass through `Resolve` unchanged. */
  lemma {:induction false} ResolvePlain(elems: seq<string>, rooted: bool, kept: seq<string>)
    requires forall i :: 0 <= i < |elems| ==> PlainElement(elems[i])
    ensures Resolve(elems, rooted, kept) == kept + elems
  {
    if elems != [] {
      ResolvePlain(elems[1..], rooted, kept + [elems[0]]);
      assert kept + [elems[0]] + elems[1..] == kept + elems;
    }
  }

  /** Cleaning a plain relative path changes nothing. */
  lemma CleanPlain(p: string)
    requires PlainRelative(p)
    ensures Clean(p) == p
  {
    var elems := Split(p, '/');
    ResolvePlain(elems, false, []);
    assert [] + elems == elems;
    SplitJoin(p, '/');
    assert elems[0] != [];
    assert Join(Resolve(elems, false, []), "/") == p;
  }

  /** Joining a plain element onto the current directory `.` yields the element itself. */
  lemma JoinDot(elem: string)
    requires PlainElement(elem)
    ensures JoinPath(".", elem) == elem
  {
    SplitAround(".", elem, '/');
    SplitWithoutSep(".", '/');
    SplitWithoutSep(elem, '/');
    assert "." + "/" + elem == "." + ['/'] + elem;
    var elems := Split("." + "/" + elem, '/');
    assert elems == [".", elem];
    assert Resolve(elems, false, []) == Resolve([elem], false, []);
    ResolvePlain([elem], false, []);
  }

  /** Joining a plain element onto a plain relative directory is plain concatenation. */
  lemma JoinPlain(dir: string, elem: string)
    requires PlainRelative(dir) && PlainElement(elem)
    ensures JoinPath(dir, elem) == dir + "/" + elem
  {
    var p := dir + "/" + elem;
    assert p == dir + ['/'] + elem;
    SplitAround(dir, elem, '/');
    SplitWithoutSep(elem, '/');
    var elems := Split(p, '/');
    assert elems == Split(dir, '/') + [elem];
    assert PlainRelative(p);
    CleanPlain(p);
    assert dir != [] by {
      assert Split(dir, '/')[0] != [];
    }
  }

  /** Joining a plain element onto the empty directory yields the element itself. */
  lemma JoinEmpty(elem: string)
    requires PlainElement(elem)
    ensures JoinPath([], elem) == elem
  {
    SplitWithoutSep(elem, '/');
    CleanPlain(elem);
  }

  /** A directory prefix: empty, or ending in a separator. */
  predicate DirPrefix(dir: string) {
    dir == [] || dir[|dir| - 1] == '/'
  }

  /** The text after the last `/` of a path ending in a name without `/` is that name. */
  lemma {:induction false} AfterLastSlashOfName(dir: string, name: string)
    requires DirPrefix(dir) && '/' !in name
    ensures AfterLastSlash(dir + name) == name
  {
    if name == [] {
      assert dir + name == dir;
    } else {
      var init := name[..|name| - 1];
      AfterLastSlashOfName(dir, init);
      assert (dir + name)[..|dir + name| - 1] == dir + init;
    }
  }

  /** A path whose last element is `e` has `filepath.Base` `e`. */
  lemma BaseOfLastElement(r: string, e: string)
    requires e != [] && '/' !in e && EndsWithElement(r, e)
    ensures Base(r) == e
  {
    var d := r[..|r| - |e|];
    assert r == d + e;
    assert DirPrefix(d) by {
      if d != [] {
        assert d[|d| - 1] == r[|r| - |e| - 1];
      }
    }
    BaseOfName(d, e);
  }

  /** `filepath.Base` of a path ending in a non-empty name without `/` is that name. */
  lemma BaseOfName(dir: string, name: string)
    requires DirPrefix(dir) && name != [] && '/' !in name
    ensures Base(dir + name) == name
  {
    var path := dir + name;
    assert path[|path| - 1] == name[|name| - 1];
    assert TrimRightFunc(path, c => c == '/') == path;
    AfterLastSlashOfName(dir, name);
  }

  /** `filepath.Ext` of a path ending in `.ext`, where `ext` has no dot and no
      separator, is `.ext`. */
  lemma {:induction false} ExtOfName(front: string, ext: string)
    requires '/' !in ext && '.' !in ext
    ensures Ext(front + "." + ext) == "." + ext
  {
    var path := front + "." + ext;
    if ext == [] {
      assert path[|path| - 1] == '.';
    } else {
      var init := ext[..|ext| - 1];
      var c := ext[|ext| - 1];
      assert c != '/' && c != '.' by {
        assert c in ext;
      }
      SnocDot(front, ext);
      ExtOfName(front, init);
      ExtStep(front + "." + init, c);
    }
  }

  /** Splitting off the last character of `ext` behind a dot. */
  lemma SnocDot(front: string, ext: string)
    requires ext != []
    ensures var init := ext[..|ext| - 1];
      var c := ext[|ext| - 1];
      front + "." + ext == (front + "." + init) + [c] && "." + ext == ("." + init) + [c]
  {
    assert ext == ext[..|ext| - 1] + [ext[|ext| - 1]];
  }

  /** Appending a character other than `/` and `.` extends a non-empty extension. */
  lemma ExtStep(s: string, c: char)
    requires c != '/' && c != '.' && Ext(s) != []
    ensures Ext(s + [c]) == Ext(s) + [c]
  {
    assert (s + [c])[..|s + [c]| - 1] == s;
  }
}
