/** path.c: splitting a path into components, normalising it, and resolving it over a directory tree. */
module Path {
  import opened Options


  const MAX_FILENAME: nat := 255
  const MAX_COMPONENTS: nat := 256

  // ---------- components ----------

  /** How many of the leading characters are slashes. */
  function Slashes(s: string): (n: nat)
    ensures n <= |s| && (n < |s| ==> s[n] != '/') && forall i :: 0 <= i < n ==> s[i] == '/'
  {
    if s != [] && s[0] == '/' then 1 + Slashes(s[1..]) else 0
  }

  /** How many of the leading characters belong to the first component: up to a slash, and never more
      than a name may have, so that a longer name comes out in pieces. */
  function Span(s: string, room: nat): (n: nat)
    ensures n <= |s| && n <= room && forall i :: 0 <= i < n ==> s[i] != '/'
    ensures n == |s| || n == room || s[n] == '/'
  {
    if s != [] && s[0] != '/' && room > 0 then 1 + Span(s[1..], room - 1) else 0
  }

  function Tokens(s: string): (cs: seq<string>)
    ensures forall c :: c in cs ==> IsComponent(c)
    decreases |s|
  {
    var t := s[Slashes(s)..];
    if t == [] then []
    else
      var n := Span(t, MAX_FILENAME);
      [t[..n]] + Tokens(t[n..])
  }

  predicate IsComponent(c: string) { 0 < |c| <= MAX_FILENAME && '/' !in c }

  /** `get_next_component`: the pointer is an index that moves behind the component it found. */
  method GetNextComponent(path: string, at: nat) returns (found: bool, component: string, next: nat)
    requires at <= |path|
    ensures at <= next <= |path|
    ensures found <==> Tokens(path[at..]) != []
    ensures found ==> next > at && Tokens(path[at..]) == [component] + Tokens(path[next..])
  {
    hide Slashes, Span, Tokens;
    var p := at;
    while p < |path| && path[p] == '/'
      invariant at <= p <= |path| && forall i :: at <= i < p ==> path[i] == '/'
    {
      p := p + 1;
    }
    SkipsTo(path, at, p);
    if p == |path| {
      return false, [], at;
    }
    var start := p;
    while p < |path| && path[p] != '/' && p - start < MAX_FILENAME
      invariant start <= p <= |path| && p - start <= MAX_FILENAME && forall i :: start <= i < p ==> path[i] != '/'
    {
      p := p + 1;
    }
    SpansTo(path, start, p);
    return true, path[start..p], p;
  }

  lemma SkipsTo(path: string, at: nat, p: nat)
    requires at <= p <= |path| && (forall i :: at <= i < p ==> path[i] == '/') && (p < |path| ==> path[p] != '/')
    ensures Tokens(path[at..]) == Tokens(path[p..]) && (p == |path| ==> Tokens(path[p..]) == [])
    ensures Slashes(path[p..]) == 0
  {
    hide Slashes, Span, Tokens;
    var s := path[at..];
    assert forall i :: 0 <= i < |s| ==> s[i] == path[at + i];
    assert Slashes(s) == p - at && s[p - at..] == path[p..] && Slashes(path[p..]) == 0;
    SkipOnce(s);
  }

  lemma SkipOnce(s: string)
    requires Slashes(s[Slashes(s)..]) == 0
    ensures Tokens(s) == Tokens(s[Slashes(s)..]) && (Slashes(s) == |s| ==> Tokens(s) == [])
  {
    hide Slashes, Span;
    var t := s[Slashes(s)..];
    assert t[0..] == t;
  }

  lemma SpansTo(path: string, start: nat, p: nat)
    requires start < p <= |path| && p - start <= MAX_FILENAME && forall i :: start <= i < p ==> path[i] != '/'
    requires p == |path| || p - start == MAX_FILENAME || path[p] == '/'
    requires Slashes(path[start..]) == 0
    ensures Tokens(path[start..]) == [path[start..p]] + Tokens(path[p..])
  {
    hide Slashes, Span, Tokens;
    var s := path[start..];
    assert forall i :: 0 <= i < |s| ==> s[i] == path[start + i];
    assert Span(s, MAX_FILENAME) == p - start;
    SpanOnce(s);
    assert s[..p - start] == path[start..p] && s[p - start..] == path[p..];
  }

  lemma SpanOnce(s: string)
    requires Slashes(s) == 0 && s != []
    ensures var n := Span(s, MAX_FILENAME); Tokens(s) == [s[..n]] + Tokens(s[n..])
  {
    hide Slashes, Span;
    assert s[0..] == s;
  }

  /** Piece `i` of a name that is longer than a component may be. */
  function Part(s: string, i: nat): string
    requires 255 * i <= |s|
  {
    if |s| <= 255 * i + 255 then s[255 * i..] else s[255 * i..255 * i + 255]
  }

  /** A name longer than 255 characters comes apart into pieces of that length. */
  lemma {:induction false} LongNameSplits(s: string)
    requires '/' !in s
    ensures |Tokens(s)| == (|s| + 254) / 255
    ensures forall i :: 0 <= i < |Tokens(s)| ==> 255 * i < |s| && Tokens(s)[i] == Part(s, i)
    decreases |s|
  {
    hide Tokens, Span, Slashes, Part;
    if s == "" {
      SkipsTo(s, 0, 0);
      assert s[0..] == s;
    } else {
      FirstPart(s);
      var n := if |s| < 255 then |s| else 255;
      LongNameSplits(s[n..]);
      forall i | 0 < i < |Tokens(s)| ensures 255 * i < |s| && Tokens(s)[i] == Part(s, i) {
        assert Tokens(s)[i] == Tokens(s[n..])[i - 1];
        LaterPart(s, i);
      }
    }
  }

  lemma FirstPart(s: string)
    requires '/' !in s && s != ""
    ensures var n := if |s| < 255 then |s| else 255;
            Tokens(s) == [Part(s, 0)] + Tokens(s[n..])
  {
    hide Tokens, Span, Slashes;
    assert s[0] != '/';
    assert Slashes(s) == 0;
    SpanOnce(s);
    var n := Span(s, MAX_FILENAME);
    assert s[..n] == Part(s, 0);
  }

  lemma LaterPart(s: string, i: nat)
    requires 0 < i && 255 <= |s| && 255 * (i - 1) < |s| - 255
    ensures Part(s[255..], i - 1) == Part(s, i)
  {}

  // ---------- normalisation ----------

  predicate IsAbsolute(s: string) { s != [] && s[0] == '/' }

  predicate IsPlain(c: string) { IsComponent(c) && c != "." && c != ".." }

  /** The stack of components after `cs` has been read with `stack` already there; "." is skipped, ".."
      pops if it can, and the 257th component is refused. */
  function Reduce(stack: seq<string>, cs: seq<string>): (r: Option<seq<string>>)
    ensures r.Some? && |stack| <= MAX_COMPONENTS ==> |r.value| <= MAX_COMPONENTS
    ensures r.Some? && (forall c :: c in stack ==> IsPlain(c)) && (forall c :: c in cs ==> IsComponent(c)) ==>
      forall c :: c in r.value ==> IsPlain(c)
    decreases |cs|
  {
    if cs == [] then Some(stack)
    else if cs[0] == "." then Reduce(stack, cs[1..])
    else if cs[0] == ".." then Reduce(if stack == [] then [] else stack[..|stack| - 1], cs[1..])
    else if |stack| >= MAX_COMPONENTS then None
    else Reduce(stack + [cs[0]], cs[1..])
  }

  function Join(cs: seq<string>): string {
    if cs == [] then "" else if |cs| == 1 then cs[0] else cs[0] + "/" + Join(cs[1..])
  }

  function Show(absolute: bool, cs: seq<string>): string {
    if absolute then "/" + Join(cs) else if cs == [] then "." else Join(cs)
  }

  /** The normalised path, if it has few enough components. */
  function Normal(path: string): Option<string> {
    match Reduce([], Tokens(path))
    case None => None
    case Some(cs) => Some(Show(IsAbsolute(path), cs))
  }

  /** Printing a list of components and splitting it again gives the list back. */
  lemma {:induction false} JoinTokens(cs: seq<string>)
    requires forall c :: c in cs ==> IsComponent(c)
    ensures Tokens(Join(cs)) == cs && Tokens("/" + Join(cs)) == cs
    ensures (cs != [] ==> Join(cs) != "" && Join(cs)[0] != '/')
    decreases |cs|
  {
    hide Slashes, Span, Tokens;
    if cs == [] {
      SkipsTo("", 0, 0);
      SkipsTo("/", 0, 1);
      assert "/" + "" == "/" && "/"[0..] == "/" && ""[0..] == "" && "/"[1..] == "";
    } else {
      var c := cs[0];
      assert c in cs && IsComponent(c);
      var rest := if |cs| == 1 then "" else "/" + Join(cs[1..]);
      var s := c + rest;
      assert Join(cs) == s;
      assert s[0] == c[0] && s != "";
      if |cs| == 1 { SkipsTo("", 0, 0); assert ""[0..] == ""; } else { JoinTokens(cs[1..]); }
      ComponentFirst(c, rest);
      assert [c] + cs[1..] == cs;
    }
  }

  /** A component in front, with or without a slash before it. */
  lemma ComponentFirst(c: string, rest: string)
    requires IsComponent(c) && (rest == "" || rest[0] == '/')
    ensures Tokens(c + rest) == [c] + Tokens(rest) && Tokens("/" + (c + rest)) == [c] + Tokens(rest)
  {
    hide Slashes, Span, Tokens;
    var s := c + rest;
    assert forall i :: 0 <= i < |c| ==> s[i] == c[i];
    SkipsTo(s, 0, 0);
    SpansTo(s, 0, |c|);
    assert s[0..] == s && s[0..|c|] == c && s[|c|..] == rest;
    SkipsTo("/" + s, 0, 1);
    assert ("/" + s)[0..] == "/" + s && ("/" + s)[1..] == s;
  }

  lemma {:induction false} PlainFits(stack: seq<string>, cs: seq<string>)
    requires (forall c :: c in cs ==> IsPlain(c)) && |stack| <= 256
    ensures Reduce(stack, cs) == if |stack| + |cs| <= 256 then Some(stack + cs) else None
    decreases |cs|
  {
    if cs == [] {
      assert stack + cs == stack;
    } else {
      assert cs[0] in cs && IsPlain(cs[0]);
      if |stack| < 256 {
        PlainFits(stack + [cs[0]], cs[1..]);
        assert stack + [cs[0]] + cs[1..] == stack + cs;
      }
    }
  }

  /** Components without dots reduce to themselves, up to 256 of them. */
  lemma PlainFitIff(cs: seq<string>)
    requires forall c :: c in cs ==> IsPlain(c)
    ensures Reduce([], cs) == if |cs| <= 256 then Some(cs) else None
  {
    PlainFits([], cs);
    assert [] + cs == cs;
  }

  /** Splitting the normalised path gives the reduced components (and "." for an empty relative one), so
      normalising again changes nothing. */
  lemma NormalIsStable(path: string)
    requires Normal(path).Some?
    ensures var out := Normal(path).value;
            && IsAbsolute(out) == IsAbsolute(path)
            && Reduce([], Tokens(out)) == Reduce([], Tokens(path))
            && Normal(out) == Some(out)
  {
    hide Tokens;
    var cs, out := Reduce([], Tokens(path)).value, Normal(path).value;
    JoinTokens(cs);
    PlainFits([], cs);
    assert [] + cs == cs;
    if !IsAbsolute(path) && cs == [] {
      DotTokens();
    }
  }

  /** In a normalised path single slashes separate the components, and none ends it but the root itself. */
  lemma NormalForm(path: string)
    requires Normal(path).Some?
    ensures var out := Normal(path).value;
            && out != "" && (forall i :: 0 <= i < |out| - 1 ==> !(out[i] == '/' && out[i + 1] == '/'))
            && (out[|out| - 1] == '/' ==> out == "/")
            && (IsAbsolute(path) <==> out[0] == '/')
  {
    hide Tokens;
    var cs := Reduce([], Tokens(path)).value;
    JoinForm(cs);
    if cs == [] { assert Join(cs) == ""; }
  }

  lemma {:induction false} JoinForm(cs: seq<string>)
    requires forall c :: c in cs ==> IsComponent(c)
    ensures var s := Join(cs);
            && (forall i :: 0 <= i < |s| - 1 ==> !(s[i] == '/' && s[i + 1] == '/'))
            && (cs != [] ==> s != "" && s[0] != '/' && s[|s| - 1] != '/')
  {
    if cs != [] {
      var c := cs[0];
      assert c in cs && c[0] in c && c[|c| - 1] in c;
      if |cs| == 1 {
        NoSlashes(c);
      } else {
        JoinForm(cs[1..]);
        var rest := Join(cs[1..]);
        var s := c + "/" + rest;
        forall i | 0 <= i < |s| - 1 ensures !(s[i] == '/' && s[i + 1] == '/') {
          if i < |c| { assert s[i] in c; } else if i > |c| { assert s[i] == rest[i - |c| - 1]; }
        }
      }
    }
  }

  lemma NoSlashes(c: string)
    requires IsComponent(c)
    ensures forall i :: 0 <= i < |c| ==> c[i] != '/'
  {}

  lemma DotTokens()
    ensures Tokens(".") == ["."] && Reduce([], ["."]) == Some([])
  {
    SkipsTo(".", 0, 0);
    SpansTo(".", 0, 1);
    SkipsTo("", 0, 0);
    assert "."[0..] == "." && "."[0..1] == "." && "."[1..] == "" && ""[0..] == "";
    assert ["."][1..] == [];
  }

  // ---------- resolution ----------

  /** What each directory maps names to; an inode that is no directory has no entry. */
  datatype Tree = Tree(dirs: map<nat, map<string, nat>>)

  function Walk(t: Tree, at: nat, cs: seq<string>): Option<nat>
    decreases |cs|
  {
    if cs == [] then Some(at)
    else if at !in t.dirs || cs[0] !in t.dirs[at] then None
    else Walk(t, t.dirs[at][cs[0]], cs[1..])
  }

  /** Every directory has "." for itself and ".." for the directory it is in; the root is in itself. */
  ghost predicate IsTree(t: Tree, root: nat) {
    && root in t.dirs
    && (forall d :: d in t.dirs ==> "." in t.dirs[d] && t.dirs[d]["."] == d && ".." in t.dirs[d])
    && t.dirs[root][".."] == root
    && (forall d, name :: d in t.dirs && name in t.dirs[d] && IsPlain(name) && t.dirs[d][name] in t.dirs ==>
          t.dirs[t.dirs[d][name]][".."] == d)
  }

  lemma {:induction false} WalkSnoc(t: Tree, at: nat, cs: seq<string>, c: string)
    ensures Walk(t, at, cs + [c]) ==
      match Walk(t, at, cs)
      case None => None
      case Some(d) => if d in t.dirs && c in t.dirs[d] then Some(t.dirs[d][c]) else None
    decreases |cs|
  {
    if cs == [] {
      assert [] + [c] == [c] && [c][1..] == [];
    } else {
      assert (cs + [c])[1..] == cs[1..] + [c];
      if at in t.dirs && cs[0] in t.dirs[at] { WalkSnoc(t, t.dirs[at][cs[0]], cs[1..], c); }
    }
  }

  /** No ".." of `cs` finds the stack empty. */
  predicate StaysBelow(stack: seq<string>, cs: seq<string>)
    decreases |cs|
  {
    cs != [] ==>
      if cs[0] == "." then StaysBelow(stack, cs[1..])
      else if cs[0] == ".." then stack != [] && StaysBelow(stack[..|stack| - 1], cs[1..])
      else StaysBelow(stack + [cs[0]], cs[1..])
  }

  /** The reduction stays where the walk is, from a base that is its own parent or is never left upwards. */
  lemma {:induction false} ReduceKeepsWalk(t: Tree, root: nat, base: nat, stack: seq<string>, at: nat, cs: seq<string>,
                                           end: nat)
    requires IsTree(t, root) && (base == root || StaysBelow(stack, cs))
    requires (forall c :: c in stack ==> IsPlain(c)) && (forall c :: c in cs ==> IsComponent(c))
    requires Walk(t, base, stack) == Some(at) && Walk(t, at, cs) == Some(end) && Reduce(stack, cs).Some?
    ensures Walk(t, base, Reduce(stack, cs).value) == Some(end)
    decreases |cs|
  {
    if cs != [] {
      var next := t.dirs[at][cs[0]];
      if cs[0] == "." {
        ReduceKeepsWalk(t, root, base, stack, at, cs[1..], end);
      } else if cs[0] == ".." {
        if stack == [] {
          ReduceKeepsWalk(t, root, base, [], base, cs[1..], end);
        } else {
          var front, last := stack[..|stack| - 1], stack[|stack| - 1];
          assert front + [last] == stack;
          WalkSnoc(t, base, front, last);
          ReduceKeepsWalk(t, root, base, front, Walk(t, base, front).value, cs[1..], end);
        }
      } else {
        WalkSnoc(t, base, stack, cs[0]);
        ReduceKeepsWalk(t, root, base, stack + [cs[0]], next, cs[1..], end);
      }
    }
  }

  /** `path_resolve` without symbolic links. */
  function Resolved(t: Tree, root: nat, cwd: nat, path: string): Option<nat> {
    Walk(t, if IsAbsolute(path) then root else cwd, Tokens(path))
  }

  /** A path with a leading slash starts from the root, any other from the working directory, whatever the other of the
      two is; a list of components leads where they lead one after the other. */
  lemma PrintedResolves(t: Tree, root: nat, cwd: nat, cs: seq<string>)
    requires forall c :: c in cs ==> IsComponent(c)
    ensures Resolved(t, root, cwd, "/" + Join(cs)) == Walk(t, root, cs)
    ensures Resolved(t, root, cwd, Join(cs)) == Walk(t, cwd, cs)
  {
    hide Tokens, Walk;
    JoinTokens(cs);
  }

  /** A path that resolves, and its normalised form, lead to the same inode, if the path is absolute or
      never climbs above the directory it starts from. */
  lemma NormalResolves(t: Tree, root: nat, cwd: nat, path: string)
    requires IsTree(t, root) && cwd in t.dirs && (IsAbsolute(path) || cwd == root || StaysBelow([], Tokens(path)))
    requires Normal(path).Some? && Resolved(t, root, cwd, path).Some?
    ensures Resolved(t, root, cwd, Normal(path).value) == Resolved(t, root, cwd, path)
  {
    hide Tokens, StaysBelow;
    var cs := Reduce([], Tokens(path)).value;
    var base := if IsAbsolute(path) then root else cwd;
    ReduceKeepsWalk(t, root, base, [], base, Tokens(path), Resolved(t, root, cwd, path).value);
    JoinTokens(cs);
    DotTokens();
  }

  /** Above it, a relative path loses its way: normalising drops the ".." that climbs out. */
  lemma RelativeMayStray() returns (t: Tree, path: string)
    ensures IsTree(t, 1) && Resolved(t, 1, 2, path) == Some(1) && Normal(path) == Some(".")
    ensures Resolved(t, 1, 2, ".") == Some(2)
  {
    t := Tree(map[1 := map["." := 1, ".." := 1, "d" := 2], 2 := map["." := 2, ".." := 1]]);
    path := "..";
    DotTokens();
    SkipsTo(path, 0, 0);
    SpansTo(path, 0, 2);
    SkipsTo("", 0, 0);
    assert path[0..] == ".." && path[0..2] == ".." && path[2..] == "" && ""[0..] == "";
    assert Tokens(path) == [".."] && [".."][1..] == [] && ["."][1..] == [];
  }

  // ---------- the methods ----------

  /** `path_normalize` into a buffer: it succeeds exactly when there are at most 256 components and the
      result fits with its terminator. */
  method Normalize(path: string, out: array<char>) returns (ok: bool)
    modifies out
    ensures ok <==> Normal(path).Some? && |Normal(path).value| < out.Length
    ensures ok ==> var n := |Normal(path).value|; out[..n] == Normal(path).value && out[n] == '\0'
  {
    hide Tokens, Reduce, Join;
    if out.Length == 0 {
      return false;
    }
    var parsed, components := Parse(path);
    if !parsed {
      return false;
    }
    ok := Print(IsAbsolute(path), components, out);
  }

  /** The component loop, over a fixed array of 256. */
  method Parse(path: string) returns (ok: bool, components: seq<string>)
    ensures Reduce([], Tokens(path)) == if ok then Some(components) else None
  {
    hide Tokens, Reduce;
    var stack := new string[MAX_COMPONENTS];
    var count, p := 0, 0;
    assert path[0..] == path && stack[..0] == [];
    var found, component, next := GetNextComponent(path, p);
    while found
      invariant p <= next <= |path| && count <= MAX_COMPONENTS
      invariant found <==> Tokens(path[p..]) != []
      invariant found ==> next > p && Tokens(path[p..]) == [component] + Tokens(path[next..])
      invariant Reduce([], Tokens(path)) == Reduce(stack[..count], Tokens(path[p..]))
      decreases |path| - p
    {
      ReduceStep(stack[..count], component, Tokens(path[next..]));
      if component == "." {
      } else if component == ".." {
        if count > 0 {
          count := count - 1;
          assert stack[..count + 1][..count] == stack[..count];
        }
      } else {
        if count >= MAX_COMPONENTS {
          return false, [];
        }
        ghost var before := stack[..count];
        stack[count] := component;
        count := count + 1;
        assert stack[..count] == before + [component];
      }
      p := next;
      found, component, next := GetNextComponent(path, p);
    }
    ReduceDone(stack[..count]);
    return true, stack[..count];
  }

  lemma ReduceStep(stack: seq<string>, c: string, rest: seq<string>)
    ensures Reduce(stack, [c] + rest) ==
      if c == "." then Reduce(stack, rest)
      else if c == ".." then Reduce(if stack == [] then [] else stack[..|stack| - 1], rest)
      else if |stack| >= MAX_COMPONENTS then None
      else Reduce(stack + [c], rest)
  {
    assert ([c] + rest)[1..] == rest;
  }

  lemma ReduceDone(stack: seq<string>)
    ensures Reduce(stack, []) == Some(stack)
  {}

  lemma JoinNothing(cs: seq<string>)
    requires |cs| == 0
    ensures Join(cs) == ""
  {}

  lemma JoinStep(cs: seq<string>, i: nat)
    requires i < |cs| && forall c :: c in cs ==> |c| > 0
    ensures Join(cs[i..]) == cs[i] + if i == |cs| - 1 then "" else "/" + Join(cs[i + 1..])
    ensures i < |cs| - 1 ==> Join(cs[i + 1..]) != ""
  {
    assert cs[i..][1..] == cs[i + 1..];
    if i < |cs| - 1 { assert cs[i + 1] in cs; }
  }

  method Append(out: array<char>, pos: nat, s: string)
    requires pos + |s| <= out.Length
    modifies out
    ensures out[..pos + |s|] == old(out[..pos]) + s
  {
    forall k | 0 <= k < |s| {
      out[pos + k] := s[k];
    }
  }

  /** What is printed for component `i`: it, and a slash if another follows. */
  function Piece(cs: seq<string>, i: nat): string
    requires i < |cs|
  {
    cs[i] + if i == |cs| - 1 then "" else "/"
  }

  lemma PieceJoins(cs: seq<string>, i: nat, before: string)
    requires i < |cs| && forall c :: c in cs ==> |c| > 0
    ensures before + Join(cs[i..]) == before + Piece(cs, i) + Join(cs[i + 1..])
    ensures i < |cs| - 1 ==> Join(cs[i + 1..]) != ""
  {
    hide Join;
    JoinStep(cs, i);
    if i == |cs| - 1 { JoinNothing(cs[i + 1..]); }
  }

  method PrintComponent(cs: seq<string>, i: nat, out: array<char>, pos: nat) returns (ok: bool, end: nat)
    requires i < |cs| && pos < out.Length
    modifies out
    ensures ok <==> pos + |Piece(cs, i)| < out.Length
    ensures if ok then end == pos + |Piece(cs, i)| && out[..end] == old(out[..pos]) + Piece(cs, i)
      else out[..] == old(out[..])
  {
    var c, last := cs[i], i == |cs| - 1;
    if pos + |c| + (if last then 0 else 1) >= out.Length {
      return false, pos;
    }
    Append(out, pos, c);
    end := pos + |c|;
    if !last {
      Append(out, end, "/");
      end := end + 1;
    }
    ok := true;
  }

  /** The output loop. */
  method Print(absolute: bool, cs: seq<string>, out: array<char>) returns (ok: bool)
    requires out.Length > 0 && forall c :: c in cs ==> |c| > 0
    modifies out
    ensures ok <==> |Show(absolute, cs)| < out.Length
    ensures ok ==> var n := |Show(absolute, cs)|; out[..n] == Show(absolute, cs) && out[n] == '\0'
  {
    hide Join, Piece;
    JoinNothing(cs[|cs|..]);
    var pos: nat := 0;
    if absolute {
      if pos + 1 >= out.Length {
        return false;
      }
      Append(out, 0, "/");
      pos := 1;
    }
    var i := 0;
    assert cs[0..] == cs;
    while i < |cs|
      invariant i <= |cs| && pos < out.Length
      invariant (if absolute then "/" else "") + Join(cs) == out[..pos] + Join(cs[i..])
    {
      PieceJoins(cs, i, out[..pos]);
      var more, end := PrintComponent(cs, i, out, pos);
      if !more {
        return false;
      }
      pos := end;
      i := i + 1;
    }
    assert cs[i..] == [] && out[..pos] + "" == out[..pos] && "" + Join(cs) == Join(cs);
    assert out[..pos] == (if absolute then "/" else "") + Join(cs);
    if !absolute && |cs| == 0 {
      if pos + 1 >= out.Length {
        return false;
      }
      Append(out, pos, ".");
      pos := pos + 1;
    }
    assert out[..pos] == Show(absolute, cs);
    out[pos] := '\0';
    ok := true;
  }

  /** `path_resolve` over a tree, without following symbolic links. */
  method Resolve(t: Tree, root: nat, cwd: nat, path: string) returns (inode: Option<nat>)
    ensures inode == Resolved(t, root, cwd, path)
  {
    hide Tokens;
    var current: nat := if IsAbsolute(path) then root else cwd;
    var p := 0;
    assert path[0..] == path;
    var found, component, next := GetNextComponent(path, p);
    while found
      invariant p <= next <= |path|
      invariant found <==> Tokens(path[p..]) != []
      invariant found ==> next > p && Tokens(path[p..]) == [component] + Tokens(path[next..])
      invariant Resolved(t, root, cwd, path) == Walk(t, current, Tokens(path[p..]))
      decreases |path| - p
    {
      if current !in t.dirs {
        return None;
      }
      if component !in t.dirs[current] {
        return None;
      }
      current := t.dirs[current][component];
      p := next;
      found, component, next := GetNextComponent(path, p);
    }
    inode := Some(current);
  }
}
