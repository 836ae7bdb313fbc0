/** Exactly when normalising a path preserves what it means, and exactly when it makes a path resolve that did not. */
module PathMeaning {
  import opened Options
  import opened Path

  // ---------- levels ----------

  /** Levels down less levels up. */
  function Net(cs: seq<string>): (n: int)
    ensures -|cs| <= n <= |cs|
  {
    if cs == [] then 0 else (if cs[0] == "." then 0 else if cs[0] == ".." then -1 else 1) + Net(cs[1..])
  }

  /** How many ".." find nothing to pop, from a stack of `depth` components. */
  function Drops(depth: nat, cs: seq<string>): nat
    decreases |cs|
  {
    if cs == [] then 0
    else if cs[0] == "." then Drops(depth, cs[1..])
    else if cs[0] == ".." then (if depth == 0 then 1 + Drops(0, cs[1..]) else Drops(depth - 1, cs[1..]))
    else Drops(depth + 1, cs[1..])
  }

  /** The stack of components after one more. */
  function Pushed(stack: seq<string>, c: string): seq<string> {
    if c == "." then stack
    else if c != ".." then stack + [c]
    else if stack == [] then []
    else stack[..|stack| - 1]
  }

  /** What normalising leaves is higher by the ".." it dropped. */
  lemma {:induction false} ReduceLength(stack: seq<string>, cs: seq<string>)
    requires Reduce(stack, cs).Some?
    ensures |Reduce(stack, cs).value| == |stack| + Net(cs) + Drops(|stack|, cs) <= |stack| + |cs|
    ensures forall c :: c in Reduce(stack, cs).value ==> c in stack || c in cs
    decreases |cs|
  {
    if cs != [] {
      ReduceLength(Pushed(stack, cs[0]), cs[1..]);
    }
  }

  lemma {:induction false} BelowIffNothingDropped(stack: seq<string>, cs: seq<string>)
    ensures StaysBelow(stack, cs) <==> Drops(|stack|, cs) == 0
    decreases |cs|
  {
    if cs != [] {
      BelowIffNothingDropped(Pushed(stack, cs[0]), cs[1..]);
    }
  }

  // ---------- a tree to tell levels apart ----------

  /** Directories 0 to `n`, each the parent of the next under all of `names`. */
  function Ladder(n: nat, names: set<string>): Tree {
    Tree(map k: nat | 0 <= k <= n :: Rung(n, names, k))
  }

  function Rung(n: nat, names: set<string>, k: nat): (m: map<string, nat>)
    ensures "." in m && m["."] == k && ".." in m && m[".."] == if k == 0 then 0 else k - 1
    ensures forall c :: IsPlain(c) ==> (c in m <==> c in names && k < n)
    ensures forall c :: IsPlain(c) && c in m ==> m[c] == k + 1
  {
    (map c | c in names && k < n :: k + 1)["." := k][".." := if k == 0 then 0 else k - 1]
  }

  lemma LadderIsTree(n: nat, names: set<string>)
    ensures IsTree(Ladder(n, names), 0)
  {
    hide Rung, IsPlain;
  }

  /** The ladder knows every name among the components. */
  ghost predicate Named(cs: seq<string>, names: set<string>) {
    forall i :: 0 <= i < |cs| ==> cs[i] == "." || cs[i] == ".." || (IsPlain(cs[i]) && cs[i] in names)
  }

  lemma {:induction false} WalkLadder(n: nat, names: set<string>, at: nat, cs: seq<string>)
    requires |cs| <= at && at + |cs| <= n && Named(cs, names)
    ensures Walk(Ladder(n, names), at, cs) == Some(at + Net(cs))
    decreases |cs|
  {
    hide Rung, IsPlain;
    if cs != [] {
      WalkLadder(n, names, if cs[0] == "." then at else if cs[0] == ".." then at - 1 else at + 1, cs[1..]);
    }
  }

  lemma {:induction false} NetPlain(cs: seq<string>, names: set<string>)
    requires forall c :: c in cs ==> IsPlain(c) && c in names
    ensures Net(cs) == |cs| && Named(cs, names)
  {
    if cs != [] {
      assert cs[0] in cs && IsPlain(cs[0]);
      NetPlain(cs[1..], names);
    }
  }

  // ---------- when normalising preserves meaning ----------

  /** Wherever the path resolves its normalised form resolves to the same inode. */
  ghost predicate KeepsMeaning(path: string)
    requires Normal(path).Some?
  {
    forall t, root, cwd :: IsTree(t, root) && cwd in t.dirs && Resolved(t, root, cwd, path).Some? ==>
      Resolved(t, root, cwd, Normal(path).value) == Resolved(t, root, cwd, path)
  }

  /** The components of a normalised relative path. */
  lemma NormalTokens(path: string)
    requires Normal(path).Some? && !IsAbsolute(path)
    ensures var cs := Reduce([], Tokens(path)).value;
            && !IsAbsolute(Normal(path).value) && (forall c :: c in cs ==> IsPlain(c))
            && Tokens(Normal(path).value) == if cs == [] then ["."] else cs
  {
    hide Tokens;
    JoinTokens(Reduce([], Tokens(path)).value);
    DotTokens();
  }

  /** On a ladder the path leads as far as it climbs and descends, its normalised form as far as is left of it. */
  lemma LadderTells(path: string, names: set<string>)
    requires Normal(path).Some? && !IsAbsolute(path)
    requires forall c :: c in Tokens(path) && IsPlain(c) ==> c in names
    ensures var cs := Tokens(path);
            var t, at := Ladder(2 * |cs|, names), |cs|;
            && Resolved(t, 0, at, path) == Some(at + Net(cs))
            && Resolved(t, 0, at, Normal(path).value) == Some(at + |Reduce([], cs).value|)
  {
    hide Tokens, Ladder, IsPlain, Walk, Net, Drops, Normal, Named, Reduce;
    var cs := Tokens(path);
    AllNamed(cs, names);
    WalkLadder(2 * |cs|, names, |cs|, cs);
    NormalOnLadder(path, names);
  }

  lemma NormalOnLadder(path: string, names: set<string>)
    requires Normal(path).Some? && !IsAbsolute(path)
    requires forall c :: c in Tokens(path) && IsPlain(c) ==> c in names
    ensures var cs := Tokens(path);
            Resolved(Ladder(2 * |cs|, names), 0, |cs|, Normal(path).value) == Some(|cs| + |Reduced(path)|)
  {
    hide Tokens, Ladder, IsPlain, Walk, Drops, Normal, Named, Net, Reduced, Reduce;
    var cs, left := Tokens(path), Reduced(path);
    var n, at := 2 * |cs|, |cs|;
    NormalTokens(path);
    ReduceLength([], cs);
    NetPlain(left, names);
    if left == [] { StayOnLadder(n, names, at); } else { WalkLadder(n, names, at, left); }
  }

  function Reduced(path: string): (cs: seq<string>)
    requires Normal(path).Some?
    ensures Reduce([], Tokens(path)) == Some(cs)
  {
    Reduce([], Tokens(path)).value
  }

  lemma StayOnLadder(n: nat, names: set<string>, at: nat)
    requires at <= n
    ensures Walk(Ladder(n, names), at, ["."]) == Some(at)
  {
    assert ["."][1..] == [];
  }

  /** A path that climbs above its start loses its way somewhere. */
  lemma ClimbingStrays(path: string)
    requires Normal(path).Some? && !IsAbsolute(path) && Drops(0, Tokens(path)) > 0
    ensures !KeepsMeaning(path)
  {
    hide Tokens, Ladder, IsPlain, Resolved, Normal, IsTree;
    var cs := Tokens(path);
    var names := set c | c in cs && IsPlain(c);
    var t, at := Ladder(2 * |cs|, names), |cs|;
    LadderIsTree(2 * |cs|, names);
    LadderHolds(2 * |cs|, names, at);
    LadderTells(path, names);
    assert Reduce([], cs) == Some(Reduced(path));
    ReduceLength([], cs);
  }

  lemma AllNamed(cs: seq<string>, names: set<string>)
    requires (forall c :: c in cs ==> IsComponent(c)) && forall c :: c in cs && IsPlain(c) ==> c in names
    ensures Named(cs, names)
  {
    assert forall i :: 0 <= i < |cs| ==> cs[i] in cs;
  }

  lemma LadderHolds(n: nat, names: set<string>, k: nat)
    requires k <= n
    ensures k in Ladder(n, names).dirs
  {}

  /** Normalising a relative path preserves its meaning, on every tree and from every directory, exactly when the
      path never climbs above the directory it starts from. */
  lemma KeepsMeaningIff(path: string)
    requires Normal(path).Some? && !IsAbsolute(path)
    ensures KeepsMeaning(path) <==> StaysBelow([], Tokens(path))
  {
    hide Tokens, Normal, Resolved, IsTree, StaysBelow;
    BelowIffNothingDropped([], Tokens(path));
    if StaysBelow([], Tokens(path)) {
      forall t, root, cwd | IsTree(t, root) && cwd in t.dirs && Resolved(t, root, cwd, path).Some?
        ensures Resolved(t, root, cwd, Normal(path).value) == Resolved(t, root, cwd, path)
      {
        NormalResolves(t, root, cwd, path);
      }
    } else {
      ClimbingStrays(path);
    }
  }

  // ---------- paths that resolve only once normalised ----------

  /** The stack after one more component, room permitting. */
  function Push(stack: seq<string>, c: string): seq<string> {
    if c == "." then stack
    else if c != ".." then stack + [c]
    else if stack == [] then [] else stack[..|stack| - 1]
  }

  /** Every stack the normaliser passes through before it reads a component leads to a directory. */
  ghost predicate OnDirs(t: Tree, base: nat, stack: seq<string>, cs: seq<string>)
    decreases |cs|
  {
    cs != [] ==>
      && Walk(t, base, stack).Some? && Walk(t, base, stack).value in t.dirs
      && OnDirs(t, base, Push(stack, cs[0]), cs[1..])
  }

  lemma {:induction false} WalkIff(t: Tree, root: nat, base: nat, stack: seq<string>, at: nat, cs: seq<string>)
    requires IsTree(t, root) && (base == root || StaysBelow(stack, cs)) && Reduce(stack, cs).Some?
    requires (forall c :: c in stack ==> IsPlain(c)) && (forall c :: c in cs ==> IsComponent(c))
    requires Walk(t, base, stack) == Some(at)
    ensures Walk(t, at, cs).Some? <==> OnDirs(t, base, stack, cs) && Walk(t, base, Reduce(stack, cs).value).Some?
    decreases |cs|
  {
    if cs != [] && at in t.dirs {
      var c := cs[0];
      if c == "." {
        WalkIff(t, root, base, stack, at, cs[1..]);
      } else if c == ".." {
        if stack == [] {
          WalkIff(t, root, base, [], base, cs[1..]);
        } else {
          var front, last := stack[..|stack| - 1], stack[|stack| - 1];
          assert front + [last] == stack;
          WalkSnoc(t, base, front, last);
          WalkIff(t, root, base, front, Walk(t, base, front).value, cs[1..]);
        }
      } else {
        WalkSnoc(t, base, stack, c);
        if c in t.dirs[at] {
          WalkIff(t, root, base, stack + [c], t.dirs[at][c], cs[1..]);
        } else {
          NowhereFrom(t, base, stack + [c], cs[1..]);
        }
      }
    }
  }

  /** A stack that leads nowhere satisfies neither condition: it is no directory to read on from, and as the
      outcome it does not resolve. */
  lemma NowhereFrom(t: Tree, base: nat, stack: seq<string>, cs: seq<string>)
    requires Walk(t, base, stack).None?
    ensures !(OnDirs(t, base, stack, cs) && Reduce(stack, cs).Some? && Walk(t, base, Reduce(stack, cs).value).Some?)
  {}

  /** A path resolves exactly when its normalised form does and every stack of components on the way to it leads to
      a directory: normalising forgets components that ".." takes back, whether they exist or not. */
  lemma ResolvesIff(t: Tree, root: nat, cwd: nat, path: string)
    requires IsTree(t, root) && cwd in t.dirs && (IsAbsolute(path) || cwd == root || StaysBelow([], Tokens(path)))
    requires Normal(path).Some?
    ensures Resolved(t, root, cwd, path).Some? <==>
      && OnDirs(t, if IsAbsolute(path) then root else cwd, [], Tokens(path))
      && Resolved(t, root, cwd, Normal(path).value).Some?
  {
    hide Tokens, StaysBelow, OnDirs;
    var cs := Reduce([], Tokens(path)).value;
    var base := if IsAbsolute(path) then root else cwd;
    WalkIff(t, root, base, [], base, Tokens(path));
    JoinTokens(cs);
    DotTokens();
  }

  /** A directory without entries: "x/.." names something that is not there, and normalises to the directory. */
  lemma MissingPathResolves() returns (t: Tree, path: string)
    ensures IsTree(t, 1) && Resolved(t, 1, 1, path) == None && Normal(path) == Some(".")
    ensures Resolved(t, 1, 1, ".") == Some(1)
  {
    hide Normal, Tokens;
    t := Tree(map[1 := map["." := 1, ".." := 1]]);
    path := "x/..";
    ClimbTokens(path, "x");
    DotTokens();
    ClimbNormal(path, "x");
    WalkMissing(t, 1, "x", [".."]);
    assert ["."][1..] == [];
  }

  lemma WalkMissing(t: Tree, at: nat, c: string, rest: seq<string>)
    requires at !in t.dirs || c !in t.dirs[at]
    ensures Walk(t, at, [c] + rest) == None
  {}

  /** A name and a step back. */
  lemma ClimbTokens(path: string, c: string)
    requires IsPlain(c) && |c| < MAX_FILENAME && path == c + "/.."
    ensures Tokens(path) == [c, ".."] && !IsAbsolute(path)
  {
    hide Tokens, Slashes, Span;
    var n := |c|;
    SkipsTo(path, 0, 0);
    SpansTo(path, 0, n);
    SkipsTo(path, n, n + 1);
    SpansTo(path, n + 1, n + 3);
    SkipsTo(path, n + 3, n + 3);
    assert path[0..] == path && path[0..n] == c && path[n + 1..n + 3] == "..";
  }

  lemma ClimbNormal(path: string, c: string)
    requires IsPlain(c) && Tokens(path) == [c, ".."] && !IsAbsolute(path)
    ensures Normal(path) == Some(".")
  {
    hide Tokens;
    assert [c, ".."][1..] == [".."] && [".."][1..] == [];
    assert [] + [c] == [c] && [c][..0] == [];
    assert Reduce([c], [".."]) == Reduce([], []);
  }
}
