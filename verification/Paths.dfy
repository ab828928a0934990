/** Whether a request path stays inside the directory it is resolved against. */
module Paths {
  import opened Machine
  import opened Splitting

  function NotEmpty(texts: seq<string>): seq<string> {
    if texts == [] then [] else (if texts[0] == "" then [] else [texts[0]]) + NotEmpty(texts[1..])
  }

  /** The components of a path: what is between its slashes and not empty. */
  function Components(path: string): seq<string> {
    NotEmpty(Segments(path, '/'))
  }

  /** How many directories below the start the components lead; negative above it. */
  function Depth(components: seq<string>): int {
    if components == [] then 0
    else
      var front, last := components[..|components| - 1], components[|components| - 1];
      Depth(front) + if last == "." then 0 else if last == ".." then -1 else 1
  }

  ghost predicate StaysInside(components: seq<string>) {
    forall k | 0 <= k <= |components| :: Depth(components[..k]) >= 0
  }

  lemma SlashSkipped(rest: string)
    ensures Components("/" + rest) == Components(rest)
  {
    SegmentEnds("", '/', rest);
    assert "" + "/" + rest == "/" + rest;
  }

  lemma ComponentRead(c: string, rest: string)
    requires c != "" && '/' !in c && (rest == "" || rest[0] == '/')
    ensures Components(c + rest) == [c] + Components(rest)
  {
    if rest == "" {
      assert c + rest == c;
      LastSegment(c, '/');
      assert NotEmpty([c]) == [c];
    } else {
      assert c + rest == c + "/" + rest[1..];
      SegmentEnds(c, '/', rest[1..]);
      assert rest == "/" + rest[1..];
      SlashSkipped(rest[1..]);
    }
  }

  lemma DepthGrows(done: seq<string>, c: string)
    ensures Depth(done + [c]) == Depth(done) + if c == "." then 0 else if c == ".." then -1 else 1
  {
    assert (done + [c])[..|done|] == done;
  }

  lemma InsideGrows(done: seq<string>, c: string)
    requires StaysInside(done) && Depth(done + [c]) >= 0
    ensures StaysInside(done + [c])
  {
    forall k | 0 <= k <= |done + [c]| ensures Depth((done + [c])[..k]) >= 0 {
      if k <= |done| {
        assert (done + [c])[..k] == done[..k];
      } else {
        assert (done + [c])[..k] == done + [c];
      }
    }
  }

  lemma Outside(done: seq<string>, c: string, rest: seq<string>)
    requires Depth(done + [c]) < 0
    ensures !StaysInside(done + [c] + rest)
  {
    var all := done + [c] + rest;
    assert all[..|done| + 1] == done + [c];
  }

  method SkipSlashes(path: string, start: nat) returns (i: nat)
    requires start <= |path|
    ensures start <= i <= |path| && (i < |path| ==> path[i] != '/')
    ensures Components(path[start..]) == Components(path[i..])
  {
    i := start;
    while i < |path| && path[i] == '/'
      invariant start <= i <= |path| && Components(path[start..]) == Components(path[i..])
    {
      assert path[i..] == "/" + path[i + 1..];
      SlashSkipped(path[i + 1..]);
      i := i + 1;
    }
  }

  method ReadComponent(path: string, beg: nat) returns (i: nat)
    requires beg < |path| && path[beg] != '/'
    ensures beg < i <= |path| && Components(path[beg..]) == [path[beg..i]] + Components(path[i..])
  {
    i := beg;
    while i < |path| && path[i] != '/'
      invariant beg <= i <= |path| && '/' !in path[beg..i]
      invariant i == beg ==> path[i] != '/'
    {
      i := i + 1;
    }
    assert path[beg..] == path[beg..i] + path[i..];
    ComponentRead(path[beg..i], path[i..]);
  }

  /** `done` of the components have been walked, without leaving, to this level; `rest` are left. */
  ghost predicate Walked(all: seq<string>, done: seq<string>, rest: seq<string>, level: int) {
    all == done + rest && StaysInside(done) && level == Depth(done)
  }

  lemma WalkOn(all: seq<string>, done: seq<string>, c: string, rest: seq<string>, level: nat)
    requires Walked(all, done, [c] + rest, level)
    ensures if c == ".." && level == 0 then !StaysInside(all)
            else Walked(all, done + [c], rest, level + if c == "." then 0 else if c == ".." then -1 else 1)
  {
    assert all == done + [c] + rest;
    DepthGrows(done, c);
    if c == ".." && level == 0 {
      Outside(done, c, rest);
    } else {
      InsideGrows(done, c);
    }
  }

  lemma WalkEnds(all: seq<string>, done: seq<string>, level: int)
    requires Walked(all, done, [], level)
    ensures StaysInside(all)
  {
    assert all == done;
  }

  /** True exactly when no prefix of the path leads above where it starts. */
  method IsValidPath(path: string) returns (valid: bool)
    ensures valid == StaysInside(Components(path))
  {
    var level: nat := 0;
    var i := SkipSlashes(path, 0);
    ghost var done: seq<string>, all := [], Components(path);
    assert path[0..] == path;
    while i < |path|
      invariant i <= |path| && (i < |path| ==> path[i] != '/')
      invariant Walked(all, done, Components(path[i..]), level)
    {
      var beg := i;
      i := ReadComponent(path, beg);
      var c := path[beg..i];
      WalkOn(all, done, c, Components(path[i..]), level);
      if c == "." {
      } else if c == ".." {
        if level == 0 {
          return false;
        }
        level := level - 1;
      } else {
        level := level + 1;
      }
      done := done + [c];
      i := SkipSlashes(path, i);
    }
    assert path[i..] == "";
    WalkEnds(all, done, level);
    return true;
  }

  // ----- What it means -----

  /** Going down the components from the directories in `below`, the last first out; nothing when that leads above
      where the directories start. */
  function Visit(below: seq<string>, components: seq<string>): Option<seq<string>>
    decreases |components|
  {
    if components == [] then Some(below)
    else if components[0] == "." then Visit(below, components[1..])
    else if components[0] != ".." then Visit(below + [components[0]], components[1..])
    else if below == [] then None
    else Visit(below[..|below| - 1], components[1..])
  }

  lemma {:induction false} VisitStays(done: seq<string>, below: seq<string>, components: seq<string>)
    requires StaysInside(done) && |below| == Depth(done)
    ensures Visit(below, components).Some? <==> StaysInside(done + components)
    ensures Visit(below, components).Some? ==> |Visit(below, components).value| == Depth(done + components)
    decreases |components|
  {
    if components == [] {
      assert done + components == done;
    } else {
      var c, rest := components[0], components[1..];
      assert done + components == done + [c] + rest;
      DepthGrows(done, c);
      if c == ".." && below == [] {
        Outside(done, c, rest);
      } else {
        InsideGrows(done, c);
        var next := if c == "." then below else if c == ".." then below[..|below| - 1] else below + [c];
        VisitStays(done + [c], next, rest);
      }
    }
  }

  /** A path is valid exactly when following it, directory by directory, never goes above the start. */
  lemma ValidIffVisits(path: string)
    ensures StaysInside(Components(path)) <==> Visit([], Components(path)).Some?
  {
    assert [] + Components(path) == Components(path);
    VisitStays([], [], Components(path));
  }
}
