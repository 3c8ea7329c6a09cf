/** Go's `path.Clean` and `path.Join` on slash-separated paths. Clean keeps a
    stack of the elements seen so far: empty and `.` elements vanish, `..`
    removes the element before it, and a rooted path cannot climb above `/`. */
module Paths {
  import Strings

  /** An element that Clean keeps unchanged: non-empty, without a slash, and
      neither `.` nor `..`. */
  predicate IsName(s: string)
  {
    s != "" && s != "." && s != ".." && '/' !in s
  }

  predicate AllNames(xs: seq<string>)
  {
    forall i :: 0 <= i < |xs| ==> IsName(xs[i])
  }

  /** The elements Clean can leave on its stack: non-empty and slash-free
      (`..` included, for paths that are not rooted). */
  predicate WellFormed(kept: seq<string>)
  {
    forall i :: 0 <= i < |kept| ==> kept[i] != "" && '/' !in kept[i]
  }

  predicate Rooted(p: string)
  {
    |p| > 0 && p[0] == '/'
  }

  /** One element of the input applied to the stack of kept elements. */
  function Step(rooted: bool, kept: seq<string>, elem: string): seq<string>
  {
    if elem == "" || elem == "." then kept
    else if elem == ".." then
      if |kept| > 0 && kept[|kept| - 1] != ".." then kept[..|kept| - 1]
      else if rooted then kept
      else kept + [".."]
    else kept + [elem]
  }

  /** All of `elems` applied, left to right. */
  function Resolve(rooted: bool, kept: seq<string>, elems: seq<string>): seq<string>
    decreases |elems|
  {
    if |elems| == 0 then kept
    else Resolve(rooted, Step(rooted, kept, elems[0]), elems[1..])
  }

  /** The text of a cleaned path; an empty relative path is `.`. */
  function Render(rooted: bool, kept: seq<string>): string
  {
    var body := Strings.Join(kept, '/');
    if rooted then "/" + body else if body == "" then "." else body
  }

  /** `path.Clean`. */
  function Clean(p: string): (r: string)
    ensures r != ""
  {
    var rooted := Rooted(p);
    Render(rooted, Resolve(rooted, [], Strings.Split(p, '/')))
  }

  /** `path.Join`: the non-empty elements joined by slashes and cleaned, or the
      empty string when every element is empty. */
  function Join(elems: seq<string>): (r: string)
    ensures r == "" <==> Strings.NonEmpty(elems) == []
  {
    var kept := Strings.NonEmpty(elems);
    if |kept| == 0 then "" else Clean(Strings.Join(kept, '/'))
  }

  /** `path.Join` of plain names only is their slash-join. */
  lemma JoinPlain(names: seq<string>)
    requires |names| >= 1 && AllNames(names)
    ensures Join(names) == Strings.Join(names, '/')
  {
    Strings.NonEmptyKeepsAll(names);
    JoinNames(names);
  }

  /** The stack Clean builds from a prefix path. */
  function PrefixStack(prefix: string): seq<string>
  {
    Resolve(Rooted(prefix), [], Strings.Split(prefix, '/'))
  }

  /** Resolving a concatenation resolves its halves one after the other. */
  lemma {:induction false} ResolveAppend(rooted: bool, kept: seq<string>, xs: seq<string>, ys: seq<string>)
    ensures Resolve(rooted, kept, xs + ys) == Resolve(rooted, Resolve(rooted, kept, xs), ys)
    decreases |xs|
  {
    if |xs| > 0 {
      assert (xs + ys)[0] == xs[0];
      assert (xs + ys)[1..] == xs[1..] + ys;
      ResolveAppend(rooted, Step(rooted, kept, xs[0]), xs[1..], ys);
    } else {
      assert xs + ys == ys;
    }
  }

  /** Plain names are pushed as they are. */
  lemma {:induction false} ResolveNames(rooted: bool, kept: seq<string>, names: seq<string>)
    requires AllNames(names)
    ensures Resolve(rooted, kept, names) == kept + names
    decreases |names|
  {
    if |names| > 0 {
      ResolveNames(rooted, kept + [names[0]], names[1..]);
      assert kept + [names[0]] + names[1..] == kept + names;
    }
  }

  /** The stack only ever holds non-empty, slash-free elements. */
  lemma {:induction false} ResolveWellFormed(rooted: bool, kept: seq<string>, elems: seq<string>)
    requires WellFormed(kept)
    requires forall i :: 0 <= i < |elems| ==> '/' !in elems[i]
    ensures WellFormed(Resolve(rooted, kept, elems))
    decreases |elems|
  {
    if |elems| > 0 {
      var next := Step(rooted, kept, elems[0]);
      assert WellFormed(next);
      ResolveWellFormed(rooted, next, elems[1..]);
    }
  }

  /** A slash-join of plain names is already clean. */
  lemma CleanNames(names: seq<string>)
    requires |names| >= 1 && AllNames(names)
    ensures Clean(Strings.Join(names, '/')) == Strings.Join(names, '/')
  {
    var p := Strings.Join(names, '/');
    Strings.JoinStartsWithFirst(names, '/');
    assert p[0] == names[0][0];
    assert !Rooted(p);
    assert Strings.Split(p, '/') == names by {
      Strings.SplitJoin(names, '/');
    }
    assert Resolve(false, [], names) == names by {
      ResolveNames(false, [], names);
    }
    assert Render(false, names) == p;
  }

  /** `path.Join` of plain names and empty strings is the slash-join of the names. */
  lemma JoinNames(elems: seq<string>)
    requires forall i :: 0 <= i < |elems| ==> elems[i] == "" || IsName(elems[i])
    requires Strings.NonEmpty(elems) != []
    ensures Join(elems) == Strings.Join(Strings.NonEmpty(elems), '/')
  {
    var kept := Strings.NonEmpty(elems);
    assert AllNames(kept) by {
      forall i | 0 <= i < |kept|
        ensures IsName(kept[i])
      {
        assert kept[i] in elems;
      }
    }
    CleanNames(kept);
  }

  /** Joining a non-empty prefix with a relative path of plain names: the
      names land on top of whatever the prefix resolves to. */
  lemma PrefixedPath(prefix: string, names: seq<string>)
    requires prefix != ""
    requires |names| >= 1 && AllNames(names)
    ensures Join([prefix, Strings.Join(names, '/')]) == Render(Rooted(prefix), PrefixStack(prefix) + names)
  {
    var rel := Strings.Join(names, '/');
    Strings.JoinStartsWithFirst(names, '/');
    assert rel != "";
    assert Strings.NonEmpty([prefix, rel]) == [prefix, rel] by {
      assert [prefix, rel][1..] == [rel];
      assert [rel][1..] == [];
    }
    var whole := prefix + ['/'] + rel;
    assert Strings.Join([prefix, rel], '/') == whole by {
      assert [prefix, rel][1..] == [rel];
    }
    assert Rooted(whole) == Rooted(prefix);
    Strings.SplitConcat(prefix, rel, '/');
    Strings.SplitJoin(names, '/');
    var rooted := Rooted(prefix);
    ResolveAppend(rooted, [], Strings.Split(prefix, '/'), names);
    ResolveNames(rooted, PrefixStack(prefix), names);
  }

  /** Rendering is injective on well-formed, non-empty stacks. */
  lemma RenderInjective(rooted: bool, a: seq<string>, b: seq<string>)
    requires |a| >= 1 && |b| >= 1 && WellFormed(a) && WellFormed(b)
    requires Render(rooted, a) == Render(rooted, b)
    ensures a == b
  {
    Strings.JoinStartsWithFirst(a, '/');
    Strings.JoinStartsWithFirst(b, '/');
    var ja := Strings.Join(a, '/');
    var jb := Strings.Join(b, '/');
    if rooted {
      assert ja == Render(rooted, a)[1..];
    }
    assert ja == jb;
    Strings.SplitJoin(a, '/');
    Strings.SplitJoin(b, '/');
  }

  /** Under one prefix, different relative paths of plain names give
      different keys. */
  lemma {:induction false} PrefixedPathInjective(prefix: string, xs: seq<string>, ys: seq<string>)
    requires prefix != ""
    requires |xs| >= 1 && AllNames(xs) && |ys| >= 1 && AllNames(ys)
    requires Join([prefix, Strings.Join(xs, '/')]) == Join([prefix, Strings.Join(ys, '/')])
    ensures xs == ys
  {
    PrefixedPath(prefix, xs);
    PrefixedPath(prefix, ys);
    var stack := PrefixStack(prefix);
    ResolveWellFormed(Rooted(prefix), [], Strings.Split(prefix, '/'));
    assert WellFormed(stack + xs) && WellFormed(stack + ys);
    RenderInjective(Rooted(prefix), stack + xs, stack + ys);
    assert xs == (stack + xs)[|stack|..];
    assert ys == (stack + ys)[|stack|..];
  }
}
