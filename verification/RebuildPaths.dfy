/**
 Separation of the rebuild's directories (apps/api/src/cli/disposable-rebuild-safety.ts:47-107).
 A resolved absolute path is the list of its components.
 */
module RebuildPaths {
  type Component = string
  type Resolved = seq<Component>

  /** What path.resolve leaves: no empty, "." or ".." component, and no separator inside one. */
  predicate IsComponent(c: Component) {
    c != "" && c != "." && c != ".." && '/' !in c
  }

  predicate IsResolved(p: Resolved) {
    forall c <- p :: IsComponent(c)
  }

  /** Length of the longest common start of two paths. */
  function Common(a: Resolved, b: Resolved): (n: nat)
    ensures n <= |a| && n <= |b| && a[..n] == b[..n]
    ensures n == |a| || n == |b| || a[n] != b[n]
  {
    if a == [] || b == [] || a[0] != b[0] then 0
    else
      var n := 1 + Common(a[1..], b[1..]);
      assert a[..n] == [a[0]] + a[1..][..n - 1] && b[..n] == [b[0]] + b[1..][..n - 1];
      n
  }

  function Ups(n: nat): seq<Component> {
    if n == 0 then [] else [".."] + Ups(n - 1)
  }

  function Join(parts: seq<Component>): string {
    if parts == [] then ""
    else if |parts| == 1 then parts[0]
    else parts[0] + "/" + Join(parts[1..])
  }

  /** path.relative(parent, child) on POSIX. */
  function Relative(parent: Resolved, child: Resolved): string {
    var n := Common(parent, child);
    Join(Ups(|parent| - n) + child[n..])
  }

  predicate StartsWith(s: string, prefix: string) {
    prefix <= s
  }

  /** The test of the source, on the text of the relative path. */
  predicate Within(child: Resolved, parent: Resolved) {
    var relative := Relative(parent, child);
    relative == "" || (!StartsWith(relative, "../") && relative != ".." && !StartsWith(relative, "/"))
  }

  lemma FirstComponentDecides(parts: seq<Component>)
    requires parts != [] && parts[0] != "" && '/' !in parts[0]
    ensures Join(parts) != "" && !StartsWith(Join(parts), "/")
    ensures (StartsWith(Join(parts), "../") || Join(parts) == "..") <==> parts[0] == ".."
  {
    var s, first := Join(parts), parts[0];
    assert forall k | 0 <= k < |first| :: s[k] == first[k] && first[k] in first;
    assert |parts| > 1 ==> s[|first|] == '/';
    assert |parts| == 1 ==> s == first;
    assert StartsWith(s, "../") <==> |s| >= 3 && s[0] == '.' && s[1] == '.' && s[2] == '/' by {
      assert |s| >= 3 ==> s[..3] == [s[0], s[1], s[2]];
    }
    assert s == ".." <==> |s| == 2 && s[0] == '.' && s[1] == '.';
    assert first == ".." <==> |first| == 2 && first[0] == '.' && first[1] == '.';
  }

  /** The textual test is exactly: every component of `parent` starts `child`. */
  lemma WithinIsPrefix(child: Resolved, parent: Resolved)
    requires IsResolved(child) && IsResolved(parent)
    ensures Within(child, parent) <==> parent <= child
  {
    var n := Common(parent, child);
    var parts := Ups(|parent| - n) + child[n..];
    if parts != [] {
      if n == |parent| {
        assert parts == child[n..] && parts[0] == child[n] && child[n] in child;
      } else {
        assert parts[0] == "..";
      }
      FirstComponentDecides(parts);
    }
    assert parent <= child ==> forall k | 0 <= k < |parent| :: parent[k] == child[k];
  }

  /** On resolved paths `within` is a partial order. */
  lemma WithinIsPartialOrder(a: Resolved, b: Resolved, c: Resolved)
    requires IsResolved(a) && IsResolved(b) && IsResolved(c)
    ensures Within(a, a)
    ensures Within(a, b) && Within(b, a) ==> a == b
    ensures Within(a, b) && Within(b, c) ==> Within(a, c)
  {
    WithinIsPrefix(a, a);
    WithinIsPrefix(a, b);
    WithinIsPrefix(b, a);
    WithinIsPrefix(b, c);
    WithinIsPrefix(a, c);
  }

  /** No path lies under both roots. */
  ghost predicate Disjoint(a: Resolved, b: Resolved) {
    forall x | IsResolved(x) :: !(a <= x && b <= x)
  }

  /** Two roots are separate exactly when no path lies under both. */
  lemma SeparateIsDisjoint(a: Resolved, b: Resolved)
    requires IsResolved(a) && IsResolved(b)
    ensures !Within(a, b) && !Within(b, a) <==> Disjoint(a, b)
  {
    WithinIsPrefix(a, b);
    WithinIsPrefix(b, a);
    forall x | IsResolved(x) && a <= x && b <= x ensures a <= b || b <= a {
      if |a| <= |b| {
        assert a == x[..|a|] == b[..|a|];
      } else {
        assert b == x[..|b|] == a[..|b|];
      }
    }
  }

  datatype Verdict = Accepted | RootsOverlap | TouchesRepository

  /** The test made on each pair. */
  method Overlap(a: Resolved, b: Resolved) returns (overlap: bool)
    requires IsResolved(a) && IsResolved(b)
    ensures overlap <==> !Disjoint(a, b)
  {
    overlap := Within(a, b) || Within(b, a);
    SeparateIsDisjoint(a, b);
  }

  /** The nested loop over pairs of roots. */
  method AnyOverlap(roots: seq<Resolved>) returns (any: bool)
    requires forall r <- roots :: IsResolved(r)
    ensures any <==> exists i, j | 0 <= i < j < |roots| :: !Disjoint(roots[i], roots[j])
  {
    for index := 0 to |roots|
      invariant forall i, j | 0 <= i < index && i < j < |roots| :: Disjoint(roots[i], roots[j])
    {
      for other := index + 1 to |roots|
        invariant forall j | index < j < other :: Disjoint(roots[index], roots[j])
      {
        var overlap := Overlap(roots[index], roots[other]);
        if overlap {
          return true;
        }
      }
    }
    return false;
  }

  /** The loop that compares each root with the repository. */
  method AnyShared(roots: seq<Resolved>, repository: Resolved) returns (any: bool)
    requires (forall r <- roots :: IsResolved(r)) && IsResolved(repository)
    ensures any <==> exists i | 0 <= i < |roots| :: !Disjoint(roots[i], repository)
  {
    for index := 0 to |roots|
      invariant forall i | 0 <= i < index :: Disjoint(roots[i], repository)
    {
      var overlap := Overlap(roots[index], repository);
      if overlap {
        return true;
      }
    }
    return false;
  }

  /**
   The separation checks of validateRebuildSafety. They accept exactly when no path lies
   under two of the roots and none of the roots shares a path with the repository;
   otherwise the error says which of the two is violated, the roots first.
   */
  method CheckSeparation(roots: seq<Resolved>, repository: Resolved) returns (verdict: Verdict)
    requires (forall r <- roots :: IsResolved(r)) && IsResolved(repository)
    ensures verdict.RootsOverlap? <==> exists i, j | 0 <= i < j < |roots| :: !Disjoint(roots[i], roots[j])
    ensures verdict.Accepted? <==>
              && (forall i, j | 0 <= i < j < |roots| :: Disjoint(roots[i], roots[j]))
              && (forall i | 0 <= i < |roots| :: Disjoint(roots[i], repository))
  {
    var overlap := AnyOverlap(roots);
    if overlap {
      return RootsOverlap;
    }
    var shared := AnyShared(roots, repository);
    if shared {
      return TouchesRepository;
    }
    return Accepted;
  }
}
