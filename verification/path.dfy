/**
 * The final file-name component of a Unix path, as `Path::file_name` yields
 * it: the path is split at `/`, empty and `.` components are dropped, and the
 * last remaining component is the file name unless it is `..` or absent.
 */
module PathName {
  import opened Wrappers

  /** The pieces of `p` between separators; `"a//b/"` gives `["a", "", "b", ""]`. */
  function Split(p: string): (parts: seq<string>)
    ensures |parts| >= 1
    decreases |p|
  {
    if |p| == 0 then [""]
    else if p[0] == '/' then [""] + Split(p[1..])
    else
      var rest := Split(p[1..]);
      [[p[0]] + rest[0]] + rest[1..]
  }

  /** No piece contains a separator. */
  lemma {:induction false} SplitNoSeparator(p: string)
    ensures forall k | 0 <= k < |Split(p)| :: '/' !in Split(p)[k]
    decreases |p|
  {
    if |p| > 0 {
      SplitNoSeparator(p[1..]);
      var rest := Split(p[1..]);
      if p[0] != '/' {
        assert forall c | c in [p[0]] + rest[0] :: c == p[0] || c in rest[0];
      }
    }
  }

  /** The pieces joined back with separators between them. */
  function Join(parts: seq<string>): (p: string)
    requires |parts| >= 1
    decreases |parts|
  {
    if |parts| == 1 then parts[0] else parts[0] + "/" + Join(parts[1..])
  }

  /** Splitting loses nothing: joining the pieces gives the path back. */
  lemma {:induction false} JoinSplit(p: string)
    ensures Join(Split(p)) == p
    decreases |p|
  {
    if |p| > 0 {
      JoinSplit(p[1..]);
      var rest := Split(p[1..]);
      if p[0] == '/' {
        assert p == "/" + p[1..];
      } else if |rest| == 1 {
        assert p == [p[0]] + p[1..];
      } else {
        assert Join(rest) == rest[0] + "/" + Join(rest[1..]);
        var parts := [[p[0]] + rest[0]] + rest[1..];
        assert parts[1..] == rest[1..];
        assert p == [p[0]] + p[1..];
      }
    }
  }

  /** A separator in the middle splits into the pieces of each side. */
  lemma {:induction false} SplitAtSeparator(a: string, b: string)
    ensures Split(a + "/" + b) == Split(a) + Split(b)
    decreases |a|
  {
    var p := a + "/" + b;
    if |a| == 0 {
      assert p[0] == '/' && p[1..] == b;
    } else {
      var tail := a[1..] + "/" + b;
      assert p[0] == a[0] && p[1..] == tail;
      SplitAtSeparator(a[1..], b);
      if a[0] == '/' {
        SplitSeparatorFirst(p);
        SplitSeparatorFirst(a);
      } else {
        SplitOtherFirst(p);
        SplitOtherFirst(a);
        ExtendFirstPiece(a[0], Split(a[1..]), Split(b));
      }
    }
  }

  /** Prefixing a character to the first piece commutes with appending more pieces. */
  lemma ExtendFirstPiece(c: char, left: seq<string>, right: seq<string>)
    requires |left| >= 1
    ensures [[c] + (left + right)[0]] + (left + right)[1..] == ([[c] + left[0]] + left[1..]) + right
  {
    assert (left + right)[0] == left[0];
    assert (left + right)[1..] == left[1..] + right;
  }

  /** How `Split` unfolds on a path that starts with a separator. */
  lemma SplitSeparatorFirst(p: string)
    requires |p| > 0 && p[0] == '/'
    ensures Split(p) == [""] + Split(p[1..])
  {
  }

  /** How `Split` unfolds on a path that starts with another character. */
  lemma SplitOtherFirst(p: string)
    requires |p| > 0 && p[0] != '/'
    ensures Split(p) == [[p[0]] + Split(p[1..])[0]] + Split(p[1..])[1..]
  {
  }

  /** A piece that the component iterator does not skip. */
  predicate IsComponent(piece: string)
  {
    piece != "" && piece != "."
  }

  /** The pieces that are components, in order. */
  function Components(parts: seq<string>): (cs: seq<string>)
    ensures |cs| <= |parts|
    ensures forall k | 0 <= k < |cs| :: IsComponent(cs[k]) && cs[k] in parts
    ensures forall k | 0 <= k < |parts| && IsComponent(parts[k]) :: parts[k] in cs
    decreases |parts|
  {
    if |parts| == 0 then []
    else if IsComponent(parts[0]) then [parts[0]] + Components(parts[1..])
    else Components(parts[1..])
  }

  /** A single piece is kept exactly when it is a component. */
  lemma ComponentsOfPiece(x: string)
    ensures Components([x]) == if IsComponent(x) then [x] else []
  {
    assert [x][1..] == [];
  }

  /** How `Components` unfolds on a first piece followed by more pieces. */
  lemma ComponentsCons(x: string, rest: seq<string>)
    ensures Components([x] + rest) == (if IsComponent(x) then [x] else []) + Components(rest)
  {
    assert ([x] + rest)[0] == x;
    assert ([x] + rest)[1..] == rest;
  }

  /** Filtering keeps order: the components of two runs of pieces are those
      of the first run followed by those of the second.  With
      `ComponentsOfPiece` this determines `Components` on every input. */
  lemma {:induction false} ComponentsAppend(x: seq<string>, y: seq<string>)
    ensures Components(x + y) == Components(x) + Components(y)
    decreases |x|
  {
    if |x| > 0 {
      var head := if IsComponent(x[0]) then [x[0]] else [];
      calc {
        Components(x + y);
        == { assert x + y == [x[0]] + (x[1..] + y); ComponentsCons(x[0], x[1..] + y); }
        head + Components(x[1..] + y);
        == { ComponentsAppend(x[1..], y); }
        head + (Components(x[1..]) + Components(y));
        (head + Components(x[1..])) + Components(y);
        == { assert x == [x[0]] + x[1..]; ComponentsCons(x[0], x[1..]); }
        Components(x) + Components(y);
      }
    } else {
      assert x + y == y;
    }
  }

  /** A name that is its own single component: non-empty, not `.` or `..`,
      and free of separators. */
  predicate PlainName(n: string)
  {
    n != "" && n != "." && n != ".." && '/' !in n
  }

  /** The final file-name component of `path`, or `None` when the path ends in
      `..`, is empty, or is made only of the root and `.` components. */
  function FileName(path: string): (r: Option<string>)
    ensures r.Some? ==> PlainName(r.value)
  {
    var cs := Components(Split(path));
    if |cs| == 0 || cs[|cs| - 1] == ".." then None
    else
      var n := cs[|cs| - 1];
      SplitNoSeparator(path);
      Some(n)
  }

  /** A piece without separators splits into itself alone. */
  lemma {:induction false} SplitPlain(n: string)
    requires '/' !in n
    ensures Split(n) == [n]
    decreases |n|
  {
    if |n| > 0 {
      assert n[0] in n;
      assert forall c | c in n[1..] :: c in n;
      SplitPlain(n[1..]);
      assert n == [n[0]] + n[1..];
    }
  }

  /** A plain name is its own file name, alone or after any directory part. */
  lemma FileNameOfChild(dir: string, n: string)
    requires PlainName(n)
    ensures FileName(n) == Some(n)
    ensures FileName(dir + "/" + n) == Some(n)
  {
    SplitPlain(n);
    SplitAtSeparator(dir, n);
    ComponentsAppend(Split(dir), [n]);
    assert Components([n]) == [n] + Components([]);
  }

  /** Trailing separators and trailing `.` components do not change the file name. */
  lemma FileNameIgnoresTrailing(p: string)
    ensures FileName(p + "/") == FileName(p)
    ensures FileName(p + "/.") == FileName(p)
  {
    assert p + "/" == p + "/" + "";
    assert p + "/." == p + "/" + ".";
    SplitAtSeparator(p, "");
    SplitAtSeparator(p, ".");
    SplitPlain("");
    SplitPlain(".");
    ComponentsAppend(Split(p), [""]);
    ComponentsAppend(Split(p), ["."]);
    assert Components([""]) == [];
    assert Components(["."]) == [];
    assert Split(p) + [""] == Split(p + "/");
  }

  /** A path whose last component is `..` has no file name. */
  lemma FileNameOfParent(dir: string)
    ensures FileName("..") == None
    ensures FileName(dir + "/..") == None
  {
    SplitPlain("..");
    ComponentsOfPiece("..");
    assert dir + "/.." == dir + "/" + "..";
    SplitAtSeparator(dir, "..");
    ComponentsAppend(Split(dir), [".."]);
    var cs := Components(Split(dir + "/.."));
    assert cs == Components(Split(dir)) + [".."];
    assert cs[|cs| - 1] == "..";
  }
}
