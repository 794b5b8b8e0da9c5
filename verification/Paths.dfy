/** Rust's `Path`: text, its components, `join`, and normalised component lists. */
module Paths {
  import opened Text

  datatype Component = RootDir | CurDir | ParentDir | Normal(name: string)

  /** An absolute path without empty, `.` or `..` components, as the list of its names. */
  type Path = seq<string>

  predicate IsName(n: string) {
    n != "" && n != "." && n != ".." && Free(n, '/')
  }

  ghost predicate Normalised(p: Path) {
    forall i :: 0 <= i < |p| ==> IsName(p[i])
  }

  lemma NormalisedConcat(a: Path, b: Path)
    requires Normalised(a) && Normalised(b)
    ensures Normalised(a + b)
  {
  }

  function Parent(p: Path): Path {
    if p == [] then [] else p[..|p| - 1]
  }

  function RenderRel(p: Path): string {
    Join(p, '/')
  }

  function Render(p: Path): string {
    "/" + RenderRel(p)
  }

  predicate IsAbsolute(text: string) {
    |text| > 0 && text[0] == '/'
  }

  /** `base.join(p)`: an absolute `p` replaces the base. */
  function PathJoin(base: string, p: string): string {
    if IsAbsolute(p) then p
    else if base == "" || base[|base| - 1] == '/' then base + p
    else base + "/" + p
  }

  /** The named and `..` pieces; empty pieces and `.` are dropped. */
  function ToSteps(segments: seq<string>): seq<Component> {
    if segments == [] then []
    else
      var rest := ToSteps(segments[1..]);
      if segments[0] == "" || segments[0] == "." then rest
      else if segments[0] == ".." then [ParentDir] + rest
      else [Normal(segments[0])] + rest
  }

  /** What a path makes its reader do, one directory at a time. */
  function Steps(text: string): seq<Component> {
    ToSteps(Split(text, '/'))
  }

  /** `Path::components`: a leading `.` survives in a relative path only. */
  function Components(text: string): seq<Component> {
    if IsAbsolute(text) then [RootDir] + Steps(text)
    else if Split(text, '/')[0] == "." then [CurDir] + Steps(text)
    else Steps(text)
  }

  /** Only `..` and proper names. */
  ghost predicate ProperNames(steps: seq<Component>) {
    forall i :: 0 <= i < |steps| ==> steps[i] == ParentDir || (steps[i].Normal? && IsName(steps[i].name))
  }

  lemma {:induction false} ToStepsAreProper(segments: seq<string>)
    requires forall i :: 0 <= i < |segments| ==> Free(segments[i], '/')
    ensures ProperNames(ToSteps(segments))
  {
    if segments != [] {
      ToStepsAreProper(segments[1..]);
    }
  }

  lemma {:induction false} StepsAreProper(text: string)
    ensures ProperNames(Steps(text))
  {
    SplitPieces(text, '/');
    ToStepsAreProper(Split(text, '/'));
  }

  function Names(p: Path): (steps: seq<Component>)
    ensures |steps| == |p|
    ensures forall i :: 0 <= i < |p| ==> steps[i] == Normal(p[i])
  {
    seq(|p|, i requires 0 <= i < |p| => Normal(p[i]))
  }

  lemma {:induction false} ToStepsConcat(a: seq<string>, b: seq<string>)
    ensures ToSteps(a + b) == ToSteps(a) + ToSteps(b)
  {
    if a == [] {
      assert a + b == b;
    } else {
      assert (a + b)[1..] == a[1..] + b && (a + b)[0] == a[0];
      ToStepsConcat(a[1..], b);
      var rest := ToSteps((a + b)[1..]);
      assert rest == ToSteps(a[1..]) + ToSteps(b);
    }
  }

  lemma {:induction false} ToStepsNames(p: Path)
    requires Normalised(p)
    ensures ToSteps(p) == Names(p)
  {
    if p != [] {
      ToStepsNames(p[1..]);
      assert Names(p) == [Normal(p[0])] + Names(p[1..]);
    }
  }

  lemma {:induction false} StepsConcat(a: string, b: string)
    ensures Steps(a + "/" + b) == Steps(a) + Steps(b)
  {
    SplitConcat(a, '/', b);
    ToStepsConcat(Split(a, '/'), Split(b, '/'));
  }

  lemma NoSteps()
    ensures Split("", '/') == [""]
    ensures Steps("") == []
  {
  }

  /** Joining a relative path walks the base first. */
  lemma {:induction false} StepsOfJoin(base: string, p: string)
    requires !IsAbsolute(p)
    ensures Steps(PathJoin(base, p)) == Steps(base) + Steps(p)
  {
    NoSteps();
    if base == "" {
      assert base + p == p;
    } else if base[|base| - 1] == '/' {
      var b := base[..|base| - 1];
      assert b + "/" + "" == base;
      assert b + "/" + p == base + p;
      StepsConcat(b, "");
      StepsConcat(b, p);
    } else {
      StepsConcat(base, p);
    }
  }

  lemma {:induction false} StepsOfRelative(p: Path)
    requires Normalised(p)
    ensures Steps(RenderRel(p)) == Names(p)
  {
    if p == [] {
      NoSteps();
    } else {
      SplitJoin(p, '/');
      ToStepsNames(p);
    }
  }

  lemma {:induction false} StepsOfRender(p: Path)
    requires Normalised(p)
    ensures Steps(Render(p)) == Names(p)
  {
    StepsConcat("", RenderRel(p));
    assert "" + "/" + RenderRel(p) == Render(p);
    NoSteps();
    StepsOfRelative(p);
  }

  /** A normalised base joined with normalised names is again normalised. */
  lemma {:induction false} JoinRendered(base: Path, rel: Path)
    requires Normalised(base) && Normalised(rel) && rel != []
    ensures !IsAbsolute(RenderRel(rel))
    ensures PathJoin(Render(base), RenderRel(rel)) == Render(base + rel)
  {
    RelativeIsNotAbsolute(rel);
    if base == [] {
      assert base + rel == rel;
    } else {
      RelativeEnd(base);
      JoinConcat(base, rel, '/');
      var r := RenderRel(base);
      assert Render(base)[|Render(base)| - 1] == r[|r| - 1];
      assert Render(base) + "/" + RenderRel(rel) == Render(base + rel);
    }
  }

  lemma RelativeIsNotAbsolute(rel: Path)
    requires Normalised(rel) && rel != []
    ensures RenderRel(rel) != "" && RenderRel(rel)[0] != '/'
  {
  }

  lemma {:induction false} RelativeEnd(p: Path)
    requires Normalised(p) && p != []
    ensures RenderRel(p) != "" && RenderRel(p)[|RenderRel(p)| - 1] != '/'
  {
    if |p| == 1 {
      assert p[0][|p[0]| - 1] != '/';
    } else {
      RelativeEnd(p[1..]);
    }
  }
}
