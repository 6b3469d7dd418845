/**
 Reading a configuration file and its includes (config-parser.c): a stack of half-read files, pushed by
 include lines and popped at the end of each file.  The files are a finite map from path names to lines;
 globbing and the effect of an ordinary line are parameters.
 */
module ConfigInclude {
  import opened Wrappers

  datatype Line = Text(text: string) | Include(pattern: string, ignoreErrors: bool)

  datatype GlobResult = GlobFailed | NoMatch | Matches(paths: seq<string>)

  datatype Error = GlobError | NoMatches | Recursive(path: string) | CantOpen(path: string) | Rejected

  /** An error and where it is reported. */
  datatype Failure = Failure(path: string, line: nat, error: Error)

  /** `glob` resolves a pattern relative to the including file; `rejects` says whether applying a line set an error. */
  datatype Env = Env(files: map<string, seq<Line>>, glob: (string, string) -> GlobResult, rejects: seq<string> -> bool)

  const DEFAULTS := "<defaults>"

  ghost function Universe(env: Env): set<string> {
    env.files.Keys + {DEFAULTS}
  }

  // ------------------------------------------------------- what the includes mean

  /** The paths on an input stack: known ones, none of them twice. */
  ghost predicate OnStack<T>(universe: set<T>, paths: seq<T>) {
    Distinct(paths) && forall p :: p in paths ==> p in universe
  }

  lemma {:induction false} StackDepth<T>(universe: set<T>, paths: seq<T>)
    requires OnStack(universe, paths)
    ensures |paths| <= |universe|
  {
    if paths != [] {
      var n := |paths| - 1;
      assert forall p :: p in paths[..n] ==> p in universe - {paths[n]};
      StackDepth(universe - {paths[n]}, paths[..n]);
      assert universe == universe - {paths[n]} + {paths[n]};
    }
  }

  datatype Pushing = Pushing(paths: seq<string>, error: Option<Error>)

  /** The stack of paths after pushing the globbed `list` from its end. */
  ghost function Push(env: Env, paths: seq<string>, list: seq<string>, ignoreErrors: bool): (r: Pushing)
    requires OnStack(Universe(env), paths)
    ensures OnStack(Universe(env), r.paths) && paths <= r.paths
    ensures forall i :: |paths| <= i < |r.paths| ==> r.paths[i] in env.files
    decreases |list|
  {
    if list == [] then Pushing(paths, None)
    else
      var rest, p := list[..|list| - 1], list[|list| - 1];
      if p in paths then Pushing(paths, Some(Recursive(p)))
      else if p in env.files then Push(env, paths + [p], rest, ignoreErrors)
      else if ignoreErrors then Push(env, paths, rest, ignoreErrors)
      else Pushing(paths, Some(CantOpen(p)))
  }

  /** The files of a list that can be opened, last one first. */
  ghost function PushOrder<T>(files: set<T>, list: seq<T>): seq<T> {
    if list == [] then []
    else (if list[|list| - 1] in files then [list[|list| - 1]] else []) + PushOrder(files, list[..|list| - 1])
  }

  lemma PushStep(env: Env, paths: seq<string>, list: seq<string>, i: nat, ignoreErrors: bool)
    requires OnStack(Universe(env), paths) && i < |list|
    ensures list[i] in paths ==>
              Push(env, paths, list[..i + 1], ignoreErrors) == Pushing(paths, Some(Recursive(list[i])))
    ensures list[i] !in paths && list[i] in env.files ==>
              && OnStack(Universe(env), paths + [list[i]])
              && Push(env, paths, list[..i + 1], ignoreErrors) == Push(env, paths + [list[i]], list[..i], ignoreErrors)
    ensures list[i] !in paths && list[i] !in env.files ==>
              Push(env, paths, list[..i + 1], ignoreErrors)
              == if ignoreErrors then Push(env, paths, list[..i], ignoreErrors)
                 else Pushing(paths, Some(CantOpen(list[i])))
  {
    assert list[..i + 1][..i] == list[..i];
  }

  lemma PushNone(env: Env, paths: seq<string>, list: seq<string>, ignoreErrors: bool)
    requires OnStack(Universe(env), paths)
    ensures Push(env, paths, list[..0], ignoreErrors) == Pushing(paths, None)
  {
  }

  /** The list names nothing on the stack, no file twice, and nothing missing unless that is ignored. */
  ghost predicate Fits<T>(files: set<T>, paths: seq<T>, list: seq<T>, ignoreErrors: bool) {
    && (forall p :: p in list ==> p !in paths)
    && Distinct(PushOrder(files, list))
    && (ignoreErrors || forall p :: p in list ==> p in files)
  }

  lemma FitsStep<T>(files: set<T>, paths: seq<T>, rest: seq<T>, p: T, ignoreErrors: bool)
    ensures PushOrder(files, rest + [p]) == (if p in files then [p] else []) + PushOrder(files, rest)
    ensures Fits(files, paths, rest + [p], ignoreErrors) <==>
              p !in paths && if p in files then Fits(files, paths + [p], rest, ignoreErrors)
                             else ignoreErrors && Fits(files, paths, rest, ignoreErrors)
  {
    var list := rest + [p];
    assert list[..|list| - 1] == rest;
    assert forall q :: q in list <==> q in rest || q == p;
    assert forall q :: q in paths + [p] <==> q in paths || q == p;
    var order := PushOrder(files, rest);
    assert PushOrder(files, list) == if p in files then [p] + order else order;
    Ordered(files, rest);
    DistinctCons(p, order);
    hide PushOrder, Distinct;
  }

  lemma PushNothing(env: Env, paths: seq<string>, ignoreErrors: bool)
    requires OnStack(Universe(env), paths)
    ensures Push(env, paths, [], ignoreErrors) == Pushing(paths + PushOrder(env.files.Keys, []), None)
    ensures Fits(env.files.Keys, paths, [], ignoreErrors)
  {
    hide OnStack, Universe;
  }

  /**
   An include works exactly when it names nothing that is still being read (an including file or a file that
   waits its turn), names no file twice, and names nothing missing unless that is ignored.
   */
  lemma {:induction false} PushExactly(env: Env, paths: seq<string>, list: seq<string>, ignoreErrors: bool)
    requires OnStack(Universe(env), paths)
    ensures var r := Push(env, paths, list, ignoreErrors);
            && (r.error.None? <==> Fits(env.files.Keys, paths, list, ignoreErrors))
            && (r.error.None? ==> r.paths == paths + PushOrder(env.files.Keys, list))
    decreases |list|
  {
    hide OnStack, Universe, Push, PushOrder, Fits;
    if list == [] {
      PushNothing(env, paths, ignoreErrors);
    } else {
      var n := |list| - 1;
      var rest, p := list[..n], list[n];
      assert list[..n + 1] == list == rest + [p];
      PushStep(env, paths, list, n, ignoreErrors);
      FitsStep(env.files.Keys, paths, rest, p, ignoreErrors);
      if p !in paths && p in env.files {
        PushExactly(env, paths + [p], rest, ignoreErrors);
        assert paths + [p] + PushOrder(env.files.Keys, rest) == paths + ([p] + PushOrder(env.files.Keys, rest));
      } else if p !in paths {
        PushExactly(env, paths, rest, ignoreErrors);
        assert [] + PushOrder(env.files.Keys, rest) == PushOrder(env.files.Keys, rest);
      }
    }
  }

  /** What follows `i` in the list can be pushed, and then `i` is on the stack already. */
  ghost predicate RefusedAt<T>(files: set<T>, paths: seq<T>, list: seq<T>, i: nat, ignoreErrors: bool) {
    && i < |list| && Fits(files, paths, list[i + 1..], ignoreErrors)
    && (list[i] in paths || list[i] in PushOrder(files, list[i + 1..]))
  }

  lemma RefusedStep<T>(files: set<T>, paths: seq<T>, rest: seq<T>, p: T, i: nat, ignoreErrors: bool)
    requires i < |rest|
    ensures RefusedAt(files, paths, rest + [p], i, ignoreErrors) <==>
              && p !in paths && (p in files || ignoreErrors)
              && RefusedAt(files, if p in files then paths + [p] else paths, rest, i, ignoreErrors)
  {
    var list := rest + [p];
    assert list[i] == rest[i] && list[i + 1..] == rest[i + 1..] + [p];
    FitsStep(files, paths, rest[i + 1..], p, ignoreErrors);
    assert forall q :: q in paths + [p] <==> q in paths || q == p;
    hide Fits, PushOrder;
  }

  lemma RefusedLast<T>(files: set<T>, paths: seq<T>, list: seq<T>, ignoreErrors: bool)
    requires list != []
    ensures RefusedAt(files, paths, list, |list| - 1, ignoreErrors) <==> list[|list| - 1] in paths
  {
    assert list[|list|..] == [];
  }

  /** An include is refused as recursive exactly when, from the end of its list, the first name that cannot be pushed
      is on the stack or has been named before. */
  lemma {:induction false} PushRefuses(env: Env, paths: seq<string>, list: seq<string>, ignoreErrors: bool)
    requires OnStack(Universe(env), paths)
    ensures var error := Push(env, paths, list, ignoreErrors).error;
            error.Some? && error.value.Recursive? <==>
              exists i: nat :: RefusedAt(env.files.Keys, paths, list, i, ignoreErrors)
    decreases |list|
  {
    if list != [] {
      hide OnStack, Universe, Push, PushOrder, Fits, RefusedAt;
      var n := |list| - 1;
      var rest, p := list[..n], list[n];
      assert list[..n + 1] == list == rest + [p];
      PushStep(env, paths, list, n, ignoreErrors);
      RefusedLast(env.files.Keys, paths, list, ignoreErrors);
      var after := if p in env.files then paths + [p] else paths;
      forall i: nat | i < n
        ensures RefusedAt(env.files.Keys, paths, list, i, ignoreErrors) <==>
                  p !in paths && (p in env.files || ignoreErrors)
                  && RefusedAt(env.files.Keys, after, rest, i, ignoreErrors)
      {
        RefusedStep(env.files.Keys, paths, rest, p, i, ignoreErrors);
      }
      RefusedWithin(env.files.Keys, paths, list, ignoreErrors);
      RefusedWithin(env.files.Keys, after, rest, ignoreErrors);
      if p !in paths && (p in env.files || ignoreErrors) {
        PushRefuses(env, after, rest, ignoreErrors);
      }
    }
  }

  lemma RefusedWithin<T>(files: set<T>, paths: seq<T>, list: seq<T>, ignoreErrors: bool)
    ensures forall i: nat :: RefusedAt(files, paths, list, i, ignoreErrors) ==> i < |list|
  {
  }

  lemma {:induction false} Ordered<T>(files: set<T>, list: seq<T>)
    ensures forall p :: p in PushOrder(files, list) <==> p in list && p in files
  {
    if list != [] {
      Ordered(files, list[..|list| - 1]);
      assert list == list[..|list| - 1] + [list[|list| - 1]];
    }
  }

  lemma DistinctCons<T>(p: T, order: seq<T>)
    ensures Distinct([p] + order) <==> p !in order && Distinct(order)
  {
    var all := [p] + order;
    assert all[0] == p && forall i :: 0 <= i < |order| ==> all[i + 1] == order[i];
    if Distinct(all) {
      forall i, j | 0 <= i < j < |order|
        ensures order[i] != order[j]
      {
        assert all[i + 1] != all[j + 1];
      }
    }
  }

  /** The lines applied so far and the error that stopped the parsing, if any. */
  datatype Outcome = Outcome(applied: seq<string>, failure: Option<Failure>)

  /** The remaining `lines` of `path`, with `below` under it on the stack. */
  ghost function Expand(env: Env, below: seq<string>, path: string, lines: seq<Line>, num: nat,
                        applied: seq<string>): Outcome
    requires OnStack(Universe(env), below + [path])
    decreases |Universe(env)| - |below|, 0, |lines|
  {
    if lines == [] then Outcome(applied, None)
    else match lines[0]
      case Text(text) =>
        if env.rejects(applied + [text]) then Outcome(applied + [text], Some(Failure(path, num + 1, Rejected)))
        else Expand(env, below, path, lines[1..], num + 1, applied + [text])
      case Include(pattern, ignoreErrors) =>
        match env.glob(path, pattern)
        case GlobFailed => Outcome(applied, Some(Failure(path, num + 1, GlobError)))
        case NoMatch =>
          if ignoreErrors then Expand(env, below, path, lines[1..], num + 1, applied)
          else Outcome(applied, Some(Failure(path, num + 1, NoMatches)))
        case Matches(list) =>
          var stack := below + [path];
          var pushed := Push(env, stack, list, ignoreErrors);
          if pushed.error.Some? then Outcome(applied, Some(Blamed(stack, pushed, num + 1)))
          else
            assert pushed.paths == stack + pushed.paths[|stack|..];
            StackDepth(Universe(env), stack);
            var r := ExpandAll(env, stack, pushed.paths[|stack|..], applied);
            if r.failure.Some? then r else Expand(env, below, path, lines[1..], num + 1, r.applied)
  }

  /** The newly pushed files, the last one first. */
  ghost function ExpandAll(env: Env, below: seq<string>, pending: seq<string>, applied: seq<string>): Outcome
    requires OnStack(Universe(env), below + pending)
    requires forall p :: p in pending ==> p in env.files
    decreases |Universe(env)| - |below|, 1, |pending|
  {
    if pending == [] then Outcome(applied, None)
    else
      var rest, p := pending[..|pending| - 1], pending[|pending| - 1];
      assert below + pending == below + rest + [p];
      StackDepth(Universe(env), below + pending);
      var r := Expand(env, below + rest, p, env.files[p], 0, applied);
      assert OnStack(Universe(env), below + rest) by { StackPrefix(Universe(env), below + rest, p); }
      if r.failure.Some? then r else ExpandAll(env, below, rest, r.applied)
  }

  /** A failed include is reported at the top of the stack, which may be a file of the same include. */
  ghost function Blamed(stack: seq<string>, pushed: Pushing, num: nat): Failure
    requires pushed.error.Some? && stack <= pushed.paths && stack != []
  {
    Failure(pushed.paths[|pushed.paths| - 1], if |pushed.paths| == |stack| then num else 0, pushed.error.value)
  }

  lemma StackPrefix<T>(universe: set<T>, paths: seq<T>, p: T)
    requires OnStack(universe, paths + [p])
    ensures OnStack(universe, paths)
  {
    assert forall i :: 0 <= i < |paths| ==> (paths + [p])[i] == paths[i];
    forall q | q in paths
      ensures q in universe
    {
      assert q in paths + [p];
    }
  }

  // ------------------------------------------------------- textual inclusion

  /** The lines with each include replaced by the contents of its files, in the order they are listed. */
  ghost function Contents(env: Env, path: string, lines: seq<Line>, depth: nat): seq<string>
    decreases depth, 0, |lines|
  {
    if lines == [] then []
    else
      var first :=
        match lines[0]
        case Text(text) => [text]
        case Include(pattern, _) =>
          var glob := env.glob(path, pattern);
          if depth > 0 && glob.Matches? then ContentsAll(env, glob.paths, depth - 1) else [];
      first + Contents(env, path, lines[1..], depth)
  }

  ghost function ContentsAll(env: Env, list: seq<string>, depth: nat): seq<string>
    decreases depth, 1, |list|
  {
    if list == [] then []
    else (if list[0] in env.files then Contents(env, list[0], env.files[list[0]], depth) else [])
         + ContentsAll(env, list[1..], depth)
  }

  lemma {:induction false} PushOrderFront<T>(files: set<T>, list: seq<T>)
    requires list != []
    ensures PushOrder(files, list) == PushOrder(files, list[1..]) + if list[0] in files then [list[0]] else []
    decreases |list|
  {
    var n := |list| - 1;
    if n > 0 {
      PushOrderFront(files, list[..n]);
      assert list[..n][1..] == list[1..][..n - 1];
      assert list[1..][n - 1] == list[n];
    }
  }

  /** An include whose files can be pushed goes through them and then on. */
  lemma ExpandInclude(env: Env, below: seq<string>, path: string, lines: seq<Line>, num: nat, applied: seq<string>)
    requires OnStack(Universe(env), below + [path]) && lines != [] && lines[0].Include?
    requires env.glob(path, lines[0].pattern).Matches?
    ensures var stack, list := below + [path], env.glob(path, lines[0].pattern).paths;
            var pushed, pending := Push(env, stack, list, lines[0].ignoreErrors), PushOrder(env.files.Keys, list);
            && (forall p :: p in pending ==> p in env.files)
            && (pushed.error.Some? ==>
                  Expand(env, below, path, lines, num, applied)
                  == Outcome(applied, Some(Blamed(stack, pushed, num + 1))))
            && (pushed.error.None? ==>
                  && OnStack(Universe(env), stack + pending)
                  && var r := ExpandAll(env, stack, pending, applied);
                     Expand(env, below, path, lines, num, applied)
                     == if r.failure.Some? then r else Expand(env, below, path, lines[1..], num + 1, r.applied))
  {
    hide OnStack, Universe, Push, ExpandAll, PushOrder;
    var stack, list := below + [path], env.glob(path, lines[0].pattern).paths;
    PushExactly(env, stack, list, lines[0].ignoreErrors);
    var pending := PushOrder(env.files.Keys, list);
    assert (stack + pending)[|stack|..] == pending;
    Ordered(env.files.Keys, list);
  }

  lemma ExpandText(env: Env, below: seq<string>, path: string, lines: seq<Line>, num: nat, applied: seq<string>)
    requires OnStack(Universe(env), below + [path]) && lines != [] && lines[0].Text?
    ensures var after := applied + [lines[0].text];
            Expand(env, below, path, lines, num, applied)
            == if env.rejects(after) then Outcome(after, Some(Failure(path, num + 1, Rejected)))
               else Expand(env, below, path, lines[1..], num + 1, after)
  {
    hide OnStack, Universe;
  }

  lemma ExpandUnmatched(env: Env, below: seq<string>, path: string, lines: seq<Line>, num: nat, applied: seq<string>)
    requires OnStack(Universe(env), below + [path]) && lines != [] && lines[0].Include?
    requires !env.glob(path, lines[0].pattern).Matches?
    ensures var missing := env.glob(path, lines[0].pattern).NoMatch?;
            Expand(env, below, path, lines, num, applied)
            == if missing && lines[0].ignoreErrors then Expand(env, below, path, lines[1..], num + 1, applied)
               else Outcome(applied, Some(Failure(path, num + 1, if missing then NoMatches else GlobError)))
  {
    hide OnStack, Universe;
  }

  lemma ContentsStep(env: Env, path: string, lines: seq<Line>, depth: nat, applied: seq<string>)
    requires lines != [] && depth > 0
    ensures lines[0].Text? ==>
              applied + Contents(env, path, lines, depth)
              == applied + [lines[0].text] + Contents(env, path, lines[1..], depth)
    ensures lines[0].Include? && !env.glob(path, lines[0].pattern).Matches? ==>
              Contents(env, path, lines, depth) == Contents(env, path, lines[1..], depth)
    ensures lines[0].Include? && env.glob(path, lines[0].pattern).Matches? ==>
              applied + Contents(env, path, lines, depth)
              == applied + ContentsAll(env, env.glob(path, lines[0].pattern).paths, depth - 1)
                 + Contents(env, path, lines[1..], depth)
  {
    hide ContentsAll;
  }

  /** A parse without error applies what textual inclusion gives, although files are pushed from the end of a list. */
  lemma {:induction false} ExpandContents(env: Env, below: seq<string>, path: string, lines: seq<Line>, num: nat,
                                          applied: seq<string>, depth: nat)
    requires OnStack(Universe(env), below + [path]) && |Universe(env)| <= |below| + depth
    ensures var r := Expand(env, below, path, lines, num, applied);
            r.failure.None? ==> r.applied == applied + Contents(env, path, lines, depth)
    decreases |Universe(env)| - |below|, 0, |lines|, 1
  {
    StackDepth(Universe(env), below + [path]);
    if lines != [] {
      hide OnStack, Universe, Push, Expand, ExpandAll, PushOrder, Contents, ContentsAll;
      ContentsStep(env, path, lines, depth, applied);
      match lines[0] {
        case Text(text) =>
          ExpandText(env, below, path, lines, num, applied);
          ExpandContents(env, below, path, lines[1..], num + 1, applied + [text], depth);
        case Include(pattern, ignoreErrors) =>
          if env.glob(path, pattern).Matches? {
            IncludedContents(env, below, path, lines, num, applied, depth);
          } else {
            ExpandUnmatched(env, below, path, lines, num, applied);
            ExpandContents(env, below, path, lines[1..], num + 1, applied, depth);
          }
      }
    }
  }

  lemma {:induction false} IncludedContents(env: Env, below: seq<string>, path: string, lines: seq<Line>, num: nat,
                                            applied: seq<string>, depth: nat)
    requires OnStack(Universe(env), below + [path]) && |Universe(env)| <= |below| + depth
    requires lines != [] && lines[0].Include? && env.glob(path, lines[0].pattern).Matches?
    ensures var r := Expand(env, below, path, lines, num, applied);
            r.failure.None? ==> r.applied == applied + Contents(env, path, lines, depth)
    decreases |Universe(env)| - |below|, 0, |lines|, 0
  {
    StackDepth(Universe(env), below + [path]);
    hide OnStack, Universe, Push, Expand, ExpandAll, PushOrder, Contents, ContentsAll, Blamed;
    var list, stack := env.glob(path, lines[0].pattern).paths, below + [path];
    ContentsStep(env, path, lines, depth, applied);
    ExpandInclude(env, below, path, lines, num, applied);
    if Push(env, stack, list, lines[0].ignoreErrors).error.None? {
      ExpandAllContents(env, stack, list, applied, depth - 1);
      var r := ExpandAll(env, stack, PushOrder(env.files.Keys, list), applied);
      ExpandContents(env, below, path, lines[1..], num + 1, r.applied, depth);
    }
  }

  lemma ContentsAllStep(env: Env, list: seq<string>, depth: nat, applied: seq<string>)
    requires list != []
    ensures list[0] in env.files ==>
              applied + ContentsAll(env, list, depth)
              == applied + Contents(env, list[0], env.files[list[0]], depth) + ContentsAll(env, list[1..], depth)
    ensures list[0] !in env.files ==> ContentsAll(env, list, depth) == ContentsAll(env, list[1..], depth)
  {
    hide Contents;
  }

  lemma {:induction false} ExpandAllContents(env: Env, below: seq<string>, list: seq<string>, applied: seq<string>,
                                             depth: nat)
    requires OnStack(Universe(env), below + PushOrder(env.files.Keys, list)) && |Universe(env)| <= |below| + depth
    requires forall p :: p in PushOrder(env.files.Keys, list) ==> p in env.files
    ensures var r := ExpandAll(env, below, PushOrder(env.files.Keys, list), applied);
            r.failure.None? ==> r.applied == applied + ContentsAll(env, list, depth)
    decreases |Universe(env)| - |below|, 1, |list|, 0
  {
    if list != [] {
      hide OnStack, Universe, Expand, Contents, ExpandAll, ContentsAll;
      PushOrderFront(env.files.Keys, list);
      ContentsAllStep(env, list, depth, applied);
      hide PushOrder;
      var rest, p := PushOrder(env.files.Keys, list[1..]), list[0];
      if p in env.files {
        ExpandAllStep(env, below, rest, p, applied);
        StackDepth(Universe(env), below + (rest + [p]));
        ExpandContents(env, below + rest, p, env.files[p], 0, applied, depth);
        ExpandAllContents(env, below, list[1..],
                          Expand(env, below + rest, p, env.files[p], 0, applied).applied, depth);
      } else {
        assert rest + [] == rest;
        ExpandAllContents(env, below, list[1..], applied, depth);
      }
    }
  }

  // ------------------------------------------------------- what an error means

  /** The lines that are left are those behind line `num`. */
  ghost predicate Placed(env: Env, path: string, lines: seq<Line>, num: nat) {
    || (num == 0 && lines == [])
    || (path in env.files && num <= |env.files[path]| && lines == env.files[path][num..])
  }

  ghost predicate IsLine(env: Env, path: string, line: nat) {
    path in env.files && 0 < line <= |env.files[path]|
  }

  /** The reported line is an include of these files. */
  ghost predicate IncludesAt(env: Env, failure: Failure, p: string) {
    && IsLine(env, failure.path, failure.line) && env.files[failure.path][failure.line - 1].Include?
    && var glob := env.glob(failure.path, env.files[failure.path][failure.line - 1].pattern);
       glob.Matches? && p in glob.paths
  }

  /** The reported line is what the error is about; an include can also be blamed on a file that was pushed for it. */
  ghost predicate Explained(env: Env, failure: Failure, applied: seq<string>) {
    match failure.error
    case Rejected =>
      && IsLine(env, failure.path, failure.line) && applied != []
      && env.files[failure.path][failure.line - 1] == Text(applied[|applied| - 1])
    case GlobError =>
      && IsLine(env, failure.path, failure.line) && env.files[failure.path][failure.line - 1].Include?
      && env.glob(failure.path, env.files[failure.path][failure.line - 1].pattern) == GlobFailed
    case NoMatches =>
      && IsLine(env, failure.path, failure.line)
      && var line := env.files[failure.path][failure.line - 1];
         line.Include? && !line.ignoreErrors && env.glob(failure.path, line.pattern) == NoMatch
    case Recursive(p) =>
      failure.line == 0 || IncludesAt(env, failure, p)
    case CantOpen(p) =>
      p !in env.files && (failure.line == 0 || IncludesAt(env, failure, p))
  }

  /** The lines `before` have been extended, stopping at the first that is rejected. */
  ghost predicate Stops(env: Env, before: seq<string>, r: Outcome) {
    && before <= r.applied
    && (forall n :: |before| < n < |r.applied| ==> !env.rejects(r.applied[..n]))
    && (r.failure.Some? && r.failure.value.error == Rejected <==> |before| < |r.applied| && env.rejects(r.applied))
    && (r.failure.Some? ==> Explained(env, r.failure.value, r.applied))
  }

  lemma StopsTwice(env: Env, before: seq<string>, middle: seq<string>, r: Outcome)
    requires Stops(env, before, Outcome(middle, None)) && Stops(env, middle, r)
    ensures Stops(env, before, r)
  {
    hide Explained;
    forall n | |before| < n < |r.applied|
      ensures !env.rejects(r.applied[..n])
    {
      if n <= |middle| {
        assert r.applied[..n] == middle[..n];
        assert middle[..|middle|] == middle;
      }
    }
    assert r.applied == middle ==> |r.applied| == |middle|;
    assert |r.applied| == |middle| ==> r.applied == middle;
  }

  lemma StopsAtText(env: Env, path: string, lines: seq<Line>, num: nat, applied: seq<string>)
    requires Placed(env, path, lines, num) && lines != [] && lines[0].Text?
    ensures var after := applied + [lines[0].text];
            && (env.rejects(after) ==> Stops(env, applied, Outcome(after, Some(Failure(path, num + 1, Rejected)))))
            && (!env.rejects(after) ==> Stops(env, applied, Outcome(after, None)))
            && Placed(env, path, lines[1..], num + 1)
  {
  }

  lemma StopsAtUnmatched(env: Env, path: string, lines: seq<Line>, num: nat, applied: seq<string>)
    requires Placed(env, path, lines, num) && lines != [] && lines[0].Include?
    requires !env.glob(path, lines[0].pattern).Matches?
    ensures var missing := env.glob(path, lines[0].pattern).NoMatch?;
            !(missing && lines[0].ignoreErrors) ==>
              Stops(env, applied,
                    Outcome(applied, Some(Failure(path, num + 1, if missing then NoMatches else GlobError))))
    ensures Placed(env, path, lines[1..], num + 1)
  {
  }

  lemma {:induction false} PushFails(env: Env, paths: seq<string>, list: seq<string>, ignoreErrors: bool)
    requires OnStack(Universe(env), paths)
    ensures var error := Push(env, paths, list, ignoreErrors).error;
            error.Some? ==> match error.value
                            case Recursive(p) => p in list
                            case CantOpen(p) => p in list && p !in env.files && !ignoreErrors
                            case _ => false
    decreases |list|
  {
    if list != [] {
      hide OnStack, Universe, Push;
      var n := |list| - 1;
      assert list[..n + 1] == list && list[n] in list;
      PushStep(env, paths, list, n, ignoreErrors);
      if list[n] !in paths {
        PushFails(env, if list[n] in env.files then paths + [list[n]] else paths, list[..n], ignoreErrors);
      }
    }
  }

  lemma StopsAtInclude(env: Env, below: seq<string>, path: string, lines: seq<Line>, num: nat, applied: seq<string>)
    requires OnStack(Universe(env), below + [path])
    requires Placed(env, path, lines, num) && lines != [] && lines[0].Include?
    requires env.glob(path, lines[0].pattern).Matches?
    ensures var stack := below + [path];
            var pushed := Push(env, stack, env.glob(path, lines[0].pattern).paths, lines[0].ignoreErrors);
            pushed.error.Some? ==> Stops(env, applied, Outcome(applied, Some(Blamed(stack, pushed, num + 1))))
    ensures Placed(env, path, lines[1..], num + 1)
  {
    hide Push, OnStack, Universe;
    PushFails(env, below + [path], env.glob(path, lines[0].pattern).paths, lines[0].ignoreErrors);
  }

  /** Expansion stops at the first line that is rejected or cannot be included, and reports that line. */
  lemma {:induction false} ExpandStops(env: Env, below: seq<string>, path: string, lines: seq<Line>, num: nat,
                                       applied: seq<string>)
    requires OnStack(Universe(env), below + [path]) && Placed(env, path, lines, num)
    ensures Stops(env, applied, Expand(env, below, path, lines, num, applied))
    decreases |Universe(env)| - |below|, 0, |lines|
  {
    if lines != [] {
      hide OnStack, Universe, Push, Expand, ExpandAll, PushOrder, Stops, Placed, Blamed;
      if lines[0].Text? {
        var after := applied + [lines[0].text];
        ExpandText(env, below, path, lines, num, applied);
        StopsAtText(env, path, lines, num, applied);
        ExpandStops(env, below, path, lines[1..], num + 1, after);
        if !env.rejects(after) {
          StopsTwice(env, applied, after, Expand(env, below, path, lines[1..], num + 1, after));
        }
      } else if env.glob(path, lines[0].pattern).Matches? {
        var list, stack := env.glob(path, lines[0].pattern).paths, below + [path];
        ExpandInclude(env, below, path, lines, num, applied);
        StopsAtInclude(env, below, path, lines, num, applied);
        if Push(env, stack, list, lines[0].ignoreErrors).error.None? {
          StackDepth(Universe(env), stack);
          ExpandAllStops(env, stack, PushOrder(env.files.Keys, list), applied);
          var r := ExpandAll(env, stack, PushOrder(env.files.Keys, list), applied);
          if r.failure.None? {
            ExpandStops(env, below, path, lines[1..], num + 1, r.applied);
            StopsTwice(env, applied, r.applied, Expand(env, below, path, lines[1..], num + 1, r.applied));
          }
        }
      } else {
        ExpandUnmatched(env, below, path, lines, num, applied);
        StopsAtUnmatched(env, path, lines, num, applied);
        ExpandStops(env, below, path, lines[1..], num + 1, applied);
      }
    }
  }

  lemma {:induction false} ExpandAllStops(env: Env, below: seq<string>, pending: seq<string>, applied: seq<string>)
    requires OnStack(Universe(env), below + pending)
    requires forall p :: p in pending ==> p in env.files
    ensures Stops(env, applied, ExpandAll(env, below, pending, applied))
    decreases |Universe(env)| - |below|, 1, |pending|
  {
    if pending != [] {
      hide OnStack, Universe, Expand, ExpandAll, Stops;
      var rest, p := pending[..|pending| - 1], pending[|pending| - 1];
      assert pending == rest + [p];
      ExpandAllStep(env, below, rest, p, applied);
      StackDepth(Universe(env), below + pending);
      ExpandStops(env, below + rest, p, env.files[p], 0, applied);
      var r := Expand(env, below + rest, p, env.files[p], 0, applied);
      if r.failure.None? {
        ExpandAllStops(env, below, rest, r.applied);
        StopsTwice(env, applied, r.applied, ExpandAll(env, below, rest, r.applied));
      }
    }
  }

  // ------------------------------------------------------- the input stack

  /** A half-read file; the last frame of a stack is the current input. */
  datatype Frame = Frame(path: string, rest: seq<Line>, num: nat)

  ghost function Paths(stack: seq<Frame>): (r: seq<string>)
    ensures |r| == |stack| && forall i :: 0 <= i < |stack| ==> r[i] == stack[i].path
  {
    seq(|stack|, i requires 0 <= i < |stack| => stack[i].path)
  }

  lemma PathsAppend(stack: seq<Frame>, frame: Frame)
    ensures Paths(stack + [frame]) == Paths(stack) + [frame.path]
    ensures stack + [frame] != [] && (stack + [frame])[..|stack|] == stack
  {
  }

  /** What the rest of the stack will do. */
  ghost function Finish(env: Env, stack: seq<Frame>, applied: seq<string>): Outcome
    requires OnStack(Universe(env), Paths(stack))
  {
    if stack == [] then Outcome(applied, None)
    else
      var rest, top := stack[..|stack| - 1], stack[|stack| - 1];
      assert Paths(stack) == Paths(rest) + [top.path];
      StackPrefix(Universe(env), Paths(rest), top.path);
      var r := Expand(env, Paths(rest), top.path, top.rest, top.num, applied);
      if r.failure.Some? then r else Finish(env, rest, r.applied)
  }

  ghost function Frames(env: Env, pending: seq<string>): (r: seq<Frame>)
    requires forall p :: p in pending ==> p in env.files
    ensures |r| == |pending| && forall i :: 0 <= i < |r| ==> r[i] == Frame(pending[i], env.files[pending[i]], 0)
  {
    seq(|pending|, i requires 0 <= i < |pending| => Frame(pending[i], env.files[pending[i]], 0))
  }

  /** The current input first, and then the rest of the stack. */
  lemma FinishStep(env: Env, stack: seq<Frame>, frame: Frame, applied: seq<string>)
    requires OnStack(Universe(env), Paths(stack) + [frame.path])
    ensures OnStack(Universe(env), Paths(stack)) && Paths(stack + [frame]) == Paths(stack) + [frame.path]
    ensures var r := Expand(env, Paths(stack), frame.path, frame.rest, frame.num, applied);
            Finish(env, stack + [frame], applied) == if r.failure.Some? then r else Finish(env, stack, r.applied)
  {
    hide Expand, OnStack, Universe;
    PathsAppend(stack, frame);
    StackPrefix(Universe(env), Paths(stack), frame.path);
  }

  lemma ExpandAllStep(env: Env, below: seq<string>, rest: seq<string>, p: string, applied: seq<string>)
    requires OnStack(Universe(env), below + (rest + [p])) && p in env.files && forall q :: q in rest ==> q in env.files
    ensures below + (rest + [p]) == below + rest + [p] && OnStack(Universe(env), below + rest)
    ensures var r := Expand(env, below + rest, p, env.files[p], 0, applied);
            ExpandAll(env, below, rest + [p], applied)
            == if r.failure.Some? then r else ExpandAll(env, below, rest, r.applied)
  {
    hide Expand, OnStack, Universe;
    assert below + (rest + [p]) == below + rest + [p];
    assert (rest + [p])[..|rest|] == rest;
    StackPrefix(Universe(env), below + rest, p);
  }

  lemma ExpandNone(env: Env, stack: seq<Frame>, applied: seq<string>)
    requires OnStack(Universe(env), Paths(stack))
    ensures Paths(stack) + [] == Paths(stack) && stack + Frames(env, []) == stack
    ensures ExpandAll(env, Paths(stack), [], applied) == Outcome(applied, None)
  {
    hide OnStack, Universe, Expand;
    assert Paths(stack) + [] == Paths(stack);
  }

  lemma FramesStep(env: Env, stack: seq<Frame>, rest: seq<string>, p: string)
    requires p in env.files && forall q :: q in rest ==> q in env.files
    ensures stack + Frames(env, rest + [p]) == stack + Frames(env, rest) + [Frame(p, env.files[p], 0)]
    ensures Paths(stack + Frames(env, rest)) == Paths(stack) + rest
  {
    assert Frames(env, rest + [p]) == Frames(env, rest) + [Frame(p, env.files[p], 0)];
  }

  /** Running pushed files to their end and then the stack is what `ExpandAll` says. */
  lemma {:induction false} FinishPushed(env: Env, stack: seq<Frame>, pending: seq<string>, applied: seq<string>)
    requires OnStack(Universe(env), Paths(stack) + pending) && OnStack(Universe(env), Paths(stack))
    requires forall p :: p in pending ==> p in env.files
    ensures Paths(stack + Frames(env, pending)) == Paths(stack) + pending
    ensures var r := ExpandAll(env, Paths(stack), pending, applied);
            Finish(env, stack + Frames(env, pending), applied)
            == if r.failure.Some? then r else Finish(env, stack, r.applied)
    decreases |pending|
  {
    hide Expand, ExpandAll, Finish, OnStack, Universe, Paths, Frames;
    if pending == [] {
      ExpandNone(env, stack, applied);
    } else {
      var rest, p := pending[..|pending| - 1], pending[|pending| - 1];
      assert pending == rest + [p];
      ExpandAllStep(env, Paths(stack), rest, p, applied);
      FramesStep(env, stack, rest, p);
      FinishStep(env, stack + Frames(env, rest), Frame(p, env.files[p], 0), applied);
      var r := Expand(env, Paths(stack) + rest, p, env.files[p], 0, applied);
      FinishPushed(env, stack, rest, r.applied);
    }
  }

  // ------------------------------------------------------- termination

  ghost function Pow(b: nat, e: nat): nat {
    if e == 0 then 1 else b * Pow(b, e - 1)
  }

  /** Every frame's remaining lines, weighted by a power that falls with its depth. */
  ghost function Weight(stack: seq<Frame>, base: nat, depth: nat): nat
    requires |stack| <= depth
  {
    if stack == [] then 0
    else Weight(stack[..|stack| - 1], base, depth) + (|stack[|stack| - 1].rest| + 1) * Pow(base, depth + 1 - |stack|)
  }

  /** One line of the current input weighs more than everything that can be pushed on top of it. */
  lemma WeightPushed(stack: seq<Frame>, frame: Frame, longest: nat, depth: nat)
    requires 0 < |stack| < depth && |frame.rest| <= longest
    ensures Weight(stack + [frame], longest + 2, depth) + Pow(longest + 2, depth - |stack|)
            <= Weight(stack, longest + 2, depth) + Pow(longest + 2, depth + 1 - |stack|)
  {
    assert (stack + [frame])[..|stack|] == stack;
    var unit := Pow(longest + 2, depth - |stack|);
    assert Pow(longest + 2, depth + 1 - |stack|) == (longest + 2) * unit;
    assert (|frame.rest| + 1) * unit <= (longest + 1) * unit;
    assert (longest + 1) * unit + unit == (longest + 2) * unit;
  }

  lemma WeightRead(stack: seq<Frame>, base: nat, depth: nat)
    requires 0 < |stack| <= depth && stack[|stack| - 1].rest != []
    ensures Weight(AfterRead(stack), base, depth) + Pow(base, depth + 1 - |stack|) == Weight(stack, base, depth)
  {
    var n := |stack| - 1;
    assert AfterRead(stack)[..n] == stack[..n];
    var unit := Pow(base, depth - n);
    var left := |stack[n].rest|;
    assert (left + 1) * unit == left * unit + unit;
  }

  lemma {:induction false} PowPositive(b: nat, e: nat)
    requires b > 0
    ensures Pow(b, e) > 0
  {
    if e > 0 {
      PowPositive(b, e - 1);
    }
  }

  /** The stack once the current input has read its next line. */
  function AfterRead(stack: seq<Frame>): seq<Frame>
    requires stack != [] && stack[|stack| - 1].rest != []
  {
    var top := stack[|stack| - 1];
    stack[..|stack| - 1] + [Frame(top.path, top.rest[1..], top.num + 1)]
  }

  // ------------------------------------------------------- the parser

  /** The file has been started, and the last line read from it is an include. */
  ghost predicate Includes(env: Env, frame: Frame) {
    && frame.path in env.files && 0 < frame.num <= |env.files[frame.path]|
    && env.files[frame.path][frame.num - 1].Include?
  }

  /** A file may be pushed on the current input: it has not been started, or the last line read is an include. */
  ghost predicate MayInclude(env: Env, stack: seq<Frame>) {
    stack != [] && (stack[|stack| - 1].num == 0 || Includes(env, stack[|stack| - 1]))
  }

  /** Every frame stands where its line number says, and below the current input a file either waits its turn or is
      in the middle of an include. */
  ghost predicate Staged(env: Env, stack: seq<Frame>) {
    && (forall i :: 0 <= i < |stack| ==> Placed(env, stack[i].path, stack[i].rest, stack[i].num))
    && (forall i :: 0 <= i < |stack| - 1 ==> stack[i].num == 0 || Includes(env, stack[i]))
  }

  /** A stack the parser can be in. */
  ghost predicate Sound(env: Env, longest: nat, stack: seq<Frame>) {
    && OnStack(Universe(env), Paths(stack))
    && Staged(env, stack)
    && (forall i :: 0 <= i < |stack| ==> |stack[i].rest| <= longest)
    && (forall p :: p in env.files ==> |env.files[p]| <= longest)
  }

  lemma Bounded(env: Env, longest: nat, stack: seq<Frame>)
    requires Sound(env, longest, stack)
    ensures |stack| <= |Universe(env)|
  {
    StackDepth(Universe(env), Paths(stack));
  }

  /** How much is still to read; `spare` adds what one more line of the current input would weigh. */
  ghost function Left(env: Env, longest: nat, stack: seq<Frame>, spare: bool): nat
    requires Sound(env, longest, stack)
  {
    Bounded(env, longest, stack);
    Weight(stack, longest + 2, |Universe(env)|) + if spare then Pow(longest + 2, |Universe(env)| + 1 - |stack|) else 0
  }

  predicate Unread(env: Env, frame: Frame) {
    frame.path in env.files && frame == Frame(frame.path, env.files[frame.path], 0)
  }

  lemma FramesOf(env: Env, before: seq<Frame>, stack: seq<Frame>)
    requires before <= stack && forall j :: |before| <= j < |stack| ==> Unread(env, stack[j])
    ensures forall p :: p in Paths(stack)[|before|..] ==> p in env.files
    ensures stack == before + Frames(env, Paths(stack)[|before|..])
  {
  }

  /** Pushing a file that is not on the stack. */
  lemma Pushed(env: Env, longest: nat, stack: seq<Frame>, path: string)
    requires Sound(env, longest, stack) && stack != [] && path in env.files && path !in Paths(stack)
    requires MayInclude(env, stack)
    ensures var after := stack + [Frame(path, env.files[path], 0)];
            && Sound(env, longest, after) && Paths(after) == Paths(stack) + [path]
            && Left(env, longest, after, true) <= Left(env, longest, stack, true)
  {
    var frame := Frame(path, env.files[path], 0);
    PathsAppend(stack, frame);
    assert Sound(env, longest, stack + [frame]);
    Bounded(env, longest, stack + [frame]);
    WeightPushed(stack, frame, longest, |Universe(env)|);
  }

  /** Reading a line. */
  lemma Read(env: Env, longest: nat, stack: seq<Frame>)
    requires Sound(env, longest, stack) && stack != [] && stack[|stack| - 1].rest != []
    ensures Sound(env, longest, AfterRead(stack)) && Paths(AfterRead(stack)) == Paths(stack)
    ensures Left(env, longest, AfterRead(stack), true) == Left(env, longest, stack, false)
    ensures Left(env, longest, AfterRead(stack), false) < Left(env, longest, stack, false)
  {
    assert Paths(AfterRead(stack)) == Paths(stack);
    Bounded(env, longest, stack);
    WeightRead(stack, longest + 2, |Universe(env)|);
    PowPositive(longest + 2, |Universe(env)| + 1 - |stack|);
  }

  lemma WeightPopped(stack: seq<Frame>, base: nat, depth: nat)
    requires 0 < |stack| <= depth && base > 0
    ensures Weight(stack[..|stack| - 1], base, depth) < Weight(stack, base, depth)
  {
    hide Pow;
    var unit := Pow(base, depth + 1 - |stack|);
    PowPositive(base, depth + 1 - |stack|);
    assert (|stack[|stack| - 1].rest| + 1) * unit >= unit;
  }

  lemma PoppedFinish(env: Env, stack: seq<Frame>, applied: seq<string>)
    requires OnStack(Universe(env), Paths(stack)) && stack != [] && stack[|stack| - 1].rest == []
    ensures OnStack(Universe(env), Paths(stack[..|stack| - 1]))
    ensures Finish(env, stack[..|stack| - 1], applied) == Finish(env, stack, applied)
  {
    var n := |stack| - 1;
    assert Paths(stack) == Paths(stack[..n]) + [stack[n].path];
    StackPrefix(Universe(env), Paths(stack[..n]), stack[n].path);
  }

  /** Popping a file that has been read. */
  lemma Popped(env: Env, longest: nat, stack: seq<Frame>, applied: seq<string>)
    requires Sound(env, longest, stack) && stack != [] && stack[|stack| - 1].rest == []
    ensures Sound(env, longest, stack[..|stack| - 1])
    ensures Left(env, longest, stack[..|stack| - 1], false) < Left(env, longest, stack, false)
    ensures Finish(env, stack[..|stack| - 1], applied) == Finish(env, stack, applied)
  {
    hide Finish, Expand, OnStack, Universe, Paths, Placed, Includes, Weight;
    PoppedFinish(env, stack, applied);
    Bounded(env, longest, stack);
    WeightPopped(stack, longest + 2, |Universe(env)|);
  }

  /** The line that is read next. */
  function Next(stack: seq<Frame>): Line
    requires stack != [] && stack[|stack| - 1].rest != []
  {
    stack[|stack| - 1].rest[0]
  }

  lemma FinishText(env: Env, stack: seq<Frame>, applied: seq<string>)
    requires stack != [] && stack[|stack| - 1].rest != [] && Next(stack).Text?
    requires OnStack(Universe(env), Paths(stack)) && Paths(AfterRead(stack)) == Paths(stack)
    ensures var top, after := stack[|stack| - 1], applied + [Next(stack).text];
            Finish(env, stack, applied)
            == if env.rejects(after) then Outcome(after, Some(Failure(top.path, top.num + 1, Rejected)))
               else Finish(env, AfterRead(stack), after)
  {
    var n := |stack| - 1;
    assert AfterRead(stack)[..n] == stack[..n];
    assert Paths(stack) == Paths(stack[..n]) + [stack[n].path];
  }

  lemma FinishUnmatched(env: Env, stack: seq<Frame>, applied: seq<string>)
    requires stack != [] && stack[|stack| - 1].rest != [] && Next(stack).Include?
    requires OnStack(Universe(env), Paths(stack)) && Paths(AfterRead(stack)) == Paths(stack)
    requires !env.glob(stack[|stack| - 1].path, Next(stack).pattern).Matches?
    ensures var top := stack[|stack| - 1];
            var glob := env.glob(top.path, Next(stack).pattern);
            var error := if glob.NoMatch? then NoMatches else GlobError;
            Finish(env, stack, applied)
            == if glob.NoMatch? && Next(stack).ignoreErrors then Finish(env, AfterRead(stack), applied)
               else Outcome(applied, Some(Failure(top.path, top.num + 1, error)))
  {
    var n := |stack| - 1;
    assert AfterRead(stack)[..n] == stack[..n];
    assert Paths(stack) == Paths(stack[..n]) + [stack[n].path];
  }

  /** The file whose last line read is an include. */
  lemma NowIncludes(env: Env, stack: seq<Frame>)
    requires Staged(env, stack) && stack != [] && stack[|stack| - 1].rest != [] && Next(stack).Include?
    ensures Includes(env, AfterRead(stack)[|stack| - 1])
  {
    var top := stack[|stack| - 1];
    assert Placed(env, top.path, top.rest, top.num);
  }

  /** A failed include is blamed on the top of the stack it leaves. */
  lemma TopBlamed(env: Env, stack: seq<Frame>, pushed: Pushing)
    requires stack != [] && Paths(stack) <= pushed.paths
    requires forall p :: p in pushed.paths[|stack|..] ==> p in env.files
    ensures var after := stack + Frames(env, pushed.paths[|stack|..]);
            var top := after[|after| - 1];
            pushed.error.Some? ==>
              Failure(top.path, top.num, pushed.error.value) == Blamed(Paths(stack), pushed, stack[|stack| - 1].num)
  {
  }

  lemma FinishInclude(env: Env, stack: seq<Frame>, applied: seq<string>, pushed: Pushing)
    requires stack != [] && stack[|stack| - 1].rest != [] && Next(stack).Include?
    requires OnStack(Universe(env), Paths(stack)) && Paths(AfterRead(stack)) == Paths(stack)
    requires env.glob(stack[|stack| - 1].path, Next(stack).pattern).Matches?
    requires pushed == Push(env, Paths(stack), env.glob(stack[|stack| - 1].path, Next(stack).pattern).paths,
                            Next(stack).ignoreErrors)
    ensures pushed.error.Some? ==>
              Finish(env, stack, applied)
              == Outcome(applied, Some(Blamed(Paths(stack), pushed, stack[|stack| - 1].num + 1)))
    ensures pushed.error.None? ==>
              && OnStack(Universe(env), Paths(AfterRead(stack) + Frames(env, pushed.paths[|stack|..])))
              && Finish(env, stack, applied)
                 == Finish(env, AfterRead(stack) + Frames(env, pushed.paths[|stack|..]), applied)
  {
    hide OnStack, Universe, Push, Expand, ExpandAll, Finish, PushOrder, Blamed;
    var n := |stack| - 1;
    var below, top, read := stack[..n], stack[n], AfterRead(stack)[n];
    assert AfterRead(stack) == below + [read] && stack == below + [top];
    assert Paths(stack) == Paths(below) + [top.path];
    FinishStep(env, below, top, applied);
    ExpandInclude(env, Paths(below), top.path, top.rest, top.num, applied);
    if pushed.error.None? {
      PushExactly(env, Paths(stack), env.glob(top.path, top.rest[0].pattern).paths, top.rest[0].ignoreErrors);
      var pending := PushOrder(env.files.Keys, env.glob(top.path, top.rest[0].pattern).paths);
      assert pushed.paths[|stack|..] == pending;
      FinishPushed(env, AfterRead(stack), pending, applied);
      FinishStep(env, below, read, ExpandAll(env, Paths(stack), pending, applied).applied);
    }
  }

  lemma Longest(files: map<string, seq<Line>>) returns (longest: nat)
    ensures forall p :: p in files ==> |files[p]| <= longest
  {
    longest := 0;
    var keys := files.Keys;
    while keys != {}
      invariant forall p :: p in files && p !in keys ==> |files[p]| <= longest
    {
      var p :| p in keys;
      keys := keys - {p};
      if longest < |files[p]| {
        longest := |files[p]|;
      }
    }
  }

  class Parser {
    const env: Env
    ghost const longest: nat
    var stack: seq<Frame>
    var error: Option<Error>
    var applied: seq<string>
    /** The number of lines read. */
    ghost var linesRead: nat

    constructor (env: Env)
      ensures this.env == env && Valid() && stack == [] && applied == [] && error == None && linesRead == 0
    {
      this.env, stack, error, applied, linesRead := env, [], None, [], 0;
      ghost var bound := Longest(env.files);
      longest := bound;
    }

    ghost predicate Valid()
      reads this
    {
      Sound(env, longest, stack)
    }

    /** `settings_add_include` */
    method AddInclude(path: string, ignoreErrors: bool)
      requires Valid() && MayInclude(env, stack) && error == None
      modifies this`stack, this`error
      ensures MayInclude(env, stack)
      ensures Valid() && old(stack) <= stack && Left(env, longest, stack, true) <= old(Left(env, longest, stack, true))
      ensures path in Paths(old(stack)) ==> stack == old(stack) && error == Some(Recursive(path))
      ensures path !in Paths(old(stack)) && path in env.files ==>
                stack == old(stack) + [Frame(path, env.files[path], 0)] && error == None
      ensures path !in Paths(old(stack)) && path !in env.files ==>
                stack == old(stack) && error == if ignoreErrors then None else Some(CantOpen(path))
    {
      var i := |stack|;
      while i > 0
        invariant 0 <= i <= |stack| && forall j :: i <= j < |stack| ==> stack[j].path != path
      {
        if stack[i - 1].path == path {
          assert Paths(stack)[i - 1] == path;
          error := Some(Recursive(path));
          return;
        }
        i := i - 1;
      }
      if path !in env.files {
        error := if ignoreErrors then None else Some(CantOpen(path));
        return;
      }
      Pushed(env, longest, stack, path);
      stack := stack + [Frame(path, env.files[path], 0)];
    }

    /** The loop of `settings_include` over the globbed paths, last one first. */
    method AddIncludes(list: seq<string>, ignoreErrors: bool)
      requires Valid() && MayInclude(env, stack) && error == None
      modifies this`stack, this`error
      ensures Valid() && MayInclude(env, stack)
      ensures Left(env, longest, stack, true) <= old(Left(env, longest, stack, true))
      ensures var pushed := Push(env, Paths(old(stack)), list, ignoreErrors);
              && error == pushed.error && stack == old(stack) + Frames(env, pushed.paths[|old(stack)|..])
    {
      hide Left, OnStack, Universe, Push, Staged, MayInclude, Frames;
      var i := |list|;
      assert list[..i] == list;
      while i > 0
        invariant i <= |list| && Valid() && error == None && old(stack) <= stack && MayInclude(env, stack)
        invariant Left(env, longest, stack, true) <= old(Left(env, longest, stack, true))
        invariant Push(env, Paths(stack), list[..i], ignoreErrors) == Push(env, Paths(old(stack)), list, ignoreErrors)
        invariant forall j :: |old(stack)| <= j < |stack| ==> Unread(env, stack[j])
      {
        i := i - 1;
        PushStep(env, Paths(stack), list, i, ignoreErrors);
        PathsAppend(stack, Frame(list[i], if list[i] in env.files then env.files[list[i]] else [], 0));
        AddInclude(list[i], ignoreErrors);
        if error != None {
          break;
        }
      }
      if error == None {
        PushNone(env, Paths(stack), list, ignoreErrors);
      }
      FramesOf(env, old(stack), stack);
    }

    /** `settings_include` for the line that has just been read. */
    method IncludeLine(pattern: string, ignoreErrors: bool, ghost before: seq<Frame>)
      requires Sound(env, longest, before) && before != [] && before[|before| - 1].rest != []
               && Next(before) == Include(pattern, ignoreErrors)
      requires stack == AfterRead(before) && Valid() && Paths(stack) == Paths(before) && error == None
      modifies this`stack, this`error
      ensures Valid() && stack != [] && Left(env, longest, stack, true) <= old(Left(env, longest, stack, true))
      ensures error == None ==> Finish(env, stack, applied) == Finish(env, before, applied)
      ensures error.Some? ==> Finish(env, before, applied) == Outcome(applied, Some(Here()))
    {
      hide Left, OnStack, Universe, Push, Finish, Staged, Includes, Frames, Blamed;
      var top := stack[|stack| - 1];
      NowIncludes(env, before);
      match env.glob(top.path, pattern) {
        case GlobFailed =>
          FinishUnmatched(env, before, applied);
          error := Some(GlobError);
        case NoMatch =>
          FinishUnmatched(env, before, applied);
          if !ignoreErrors {
            error := Some(NoMatches);
          }
        case Matches(list) =>
          ghost var pushed := Push(env, Paths(before), list, ignoreErrors);
          FinishInclude(env, before, applied, pushed);
          AddIncludes(list, ignoreErrors);
          TopBlamed(env, old(stack), pushed);
      }
    }

    /** Where `config_parse_file` reports an error. */
    ghost function Here(): Failure
      requires stack != [] && error.Some?
      reads this
    {
      Failure(stack[|stack| - 1].path, stack[|stack| - 1].num, error.value)
    }

    /** One turn of the read loop. */
    method ReadLine()
      requires Valid() && stack != [] && stack[|stack| - 1].rest != [] && error == None
      modifies this
      ensures Valid() && stack != [] && linesRead == old(linesRead) + 1
      ensures Left(env, longest, stack, false) < old(Left(env, longest, stack, false))
      ensures error == None ==> Finish(env, stack, applied) == old(Finish(env, stack, applied))
      ensures error.Some? ==> old(Finish(env, stack, applied)) == Outcome(applied, Some(Here()))
    {
      Read(env, longest, stack);
      hide OnStack, Universe, Push, Finish, Weight, Left;
      var line := Next(stack);
      linesRead := linesRead + 1;
      match line {
        case Text(text) =>
          FinishText(env, stack, applied);
          stack := AfterRead(stack);
          applied := applied + [text];
          if env.rejects(applied) {
            error := Some(Rejected);
          }
        case Include(pattern, ignoreErrors) =>
          stack := AfterRead(stack);
          IncludeLine(pattern, ignoreErrors, old(stack));
          SpareCounts(env, longest, stack);
      }
    }

    /** The read loop: to the end of the current input, and on with the one below it. */
    method ReadAll() returns (failure: Option<Failure>)
      requires Valid() && error == None
      modifies this
      ensures Outcome(applied, failure) == old(Finish(env, stack, applied))
      ensures linesRead <= old(linesRead + Left(env, longest, stack, false))
    {
      hide OnStack, Universe, Finish, Weight, Left;
      ghost var all, total := Finish(env, stack, applied), linesRead + Left(env, longest, stack, false);
      while stack != []
        invariant Valid() && error == None && linesRead + Left(env, longest, stack, false) <= total
        invariant Finish(env, stack, applied) == all
        decreases Left(env, longest, stack, false)
      {
        if stack[|stack| - 1].rest != [] {
          ReadLine();
          if error.Some? {
            return Some(Failure(stack[|stack| - 1].path, stack[|stack| - 1].num, error.value));
          }
        } else {
          Popped(env, longest, stack, applied);
          stack := stack[..|stack| - 1];
        }
      }
      FinishNone(env, applied);
      return None;
    }

    /**
     `config_parse_file`: reading stops, after a bounded number of lines, with what the nested expansion of
     the includes applies and with its error.  Without an error that is textual inclusion.
     */
    method ParseFile(root: Option<string>) returns (found: bool, failure: Option<Failure>)
      requires Valid() && stack == [] && applied == [] && error == None && linesRead == 0
      modifies this
      ensures found <==> root.None? || root.value in env.files
      ensures found ==> var path := if root.None? then DEFAULTS else root.value;
                        && OnStack(Universe(env), [] + [path])
                        && Outcome(applied, failure)
                           == Expand(env, [], path, if root.None? then [] else env.files[path], 0, [])
                        && (failure.None? ==>
                              applied == Contents(env, path, if root.None? then [] else env.files[path],
                                                  |Universe(env)|))
      ensures found ==> Stops(env, [], Outcome(applied, failure))
      ensures linesRead <= (longest + 1) * Pow(longest + 2, |Universe(env)|)
    {
      hide OnStack, Finish, Weight, Left, Expand, Pow, Stops, Contents;
      if root.Some? && root.value !in env.files {
        return false, None;
      }
      var path := if root.None? then DEFAULTS else root.value;
      stack := [Frame(path, if root.None? then [] else env.files[path], 0)];
      Start(env, longest, stack[0]);
      ParsedLines(env, stack[0]);
      failure := ReadAll();
      found := true;
    }
  }

  lemma FinishNone(env: Env, applied: seq<string>)
    requires OnStack(Universe(env), Paths([]))
    ensures Finish(env, [], applied) == Outcome(applied, None)
  {
  }

  lemma SpareCounts(env: Env, longest: nat, stack: seq<Frame>)
    requires Sound(env, longest, stack)
    ensures Left(env, longest, stack, false) < Left(env, longest, stack, true)
  {
    Bounded(env, longest, stack);
    PowPositive(longest + 2, |Universe(env)| + 1 - |stack|);
  }

  // ------------------------------------------------------- files that wait their turn

  /** A file on the stack is being read or includes, once it has been started. */
  ghost predicate Started(stack: seq<Frame>, path: string) {
    exists i :: 0 <= i < |stack| && stack[i].path == path && stack[i].num > 0
  }

  /** Before that it waits its turn, behind a file named in front of it by the same include. */
  ghost predicate Waits(stack: seq<Frame>, path: string) {
    exists i :: 0 <= i < |stack| && stack[i].path == path && stack[i].num == 0
  }

  lemma StartedOrWaits(stack: seq<Frame>, path: string)
    ensures path in Paths(stack) <==> Started(stack, path) || Waits(stack, path)
  {
    var paths := Paths(stack);
    if path in paths {
      var i :| 0 <= i < |paths| && paths[i] == path;
      assert stack[i].path == path;
    }
    if Started(stack, path) || Waits(stack, path) {
      var i :| 0 <= i < |stack| && stack[i].path == path;
      assert paths[i] == path;
    }
  }

  /**
   An include that names no file which includes it, directly or not, is refused as recursive all the same exactly when
   it names a file that waits its turn or names a file twice; a missing file behind that one is found first.
   */
  lemma RefusedExactly(env: Env, stack: seq<Frame>, list: seq<string>, ignoreErrors: bool)
    requires OnStack(Universe(env), Paths(stack)) && forall p :: p in list ==> !Started(stack, p)
    ensures var error := Push(env, Paths(stack), list, ignoreErrors).error;
            error.Some? && error.value.Recursive? <==>
            exists i :: 0 <= i < |list| && Fits(env.files.Keys, Paths(stack), list[i + 1..], ignoreErrors)
                        && (Waits(stack, list[i]) || list[i] in PushOrder(env.files.Keys, list[i + 1..]))
    ensures var error := Push(env, Paths(stack), list, ignoreErrors).error;
            ignoreErrors || (forall p :: p in list ==> p in env.files) ==>
              (error.Some? && error.value.Recursive? <==>
               (exists p :: p in list && Waits(stack, p)) || !Distinct(PushOrder(env.files.Keys, list)))
  {
    hide OnStack, Universe, Push, PushOrder, Started, Waits, Distinct, Paths;
    var paths, files := Paths(stack), env.files.Keys;
    forall p | p in list
      ensures p in paths <==> Waits(stack, p)
    {
      StartedOrWaits(stack, p);
    }
    PushRefuses(env, paths, list, ignoreErrors);
    assert forall i: nat :: i < |list| ==> (RefusedAt(files, paths, list, i, ignoreErrors) <==>
        Fits(files, paths, list[i + 1..], ignoreErrors)
        && (Waits(stack, list[i]) || list[i] in PushOrder(files, list[i + 1..])));
    PushExactly(env, paths, list, ignoreErrors);
    PushFails(env, paths, list, ignoreErrors);
  }

  lemma StartFinish(env: Env, frame: Frame)
    requires frame.path in Universe(env) && frame.num == 0
    ensures OnStack(Universe(env), [] + [frame.path]) && Paths([frame]) == [] + [frame.path]
    ensures Finish(env, [frame], []) == Expand(env, [], frame.path, frame.rest, 0, [])
  {
    hide Expand;
    assert Paths([frame]) == [] + [frame.path];
    assert [frame][..0] == [] && Paths([]) == [];
  }

  lemma Start(env: Env, longest: nat, frame: Frame)
    requires forall p :: p in env.files ==> |env.files[p]| <= longest
    requires frame.path in Universe(env) && |frame.rest| <= longest && frame.num == 0
    requires Placed(env, frame.path, frame.rest, 0)
    ensures Sound(env, longest, [frame]) && OnStack(Universe(env), [] + [frame.path])
    ensures Left(env, longest, [frame], false) <= (longest + 1) * Pow(longest + 2, |Universe(env)|)
    ensures Finish(env, [frame], []) == Expand(env, [], frame.path, frame.rest, 0, [])
  {
    StartFinish(env, frame);
    hide Expand, Finish, OnStack, Universe;
    Bounded(env, longest, [frame]);
    WeightOne(frame, longest, |Universe(env)|);
    hide Weight, Pow;
  }

  lemma ParsedLines(env: Env, frame: Frame)
    requires frame.path in Universe(env) && Placed(env, frame.path, frame.rest, 0)
    ensures OnStack(Universe(env), [] + [frame.path])
    ensures var r := Expand(env, [], frame.path, frame.rest, 0, []);
            && Stops(env, [], r)
            && (r.failure.None? ==> r.applied == Contents(env, frame.path, frame.rest, |Universe(env)|))
  {
    hide Expand, Contents, Stops;
    assert OnStack(Universe(env), [] + [frame.path]);
    hide OnStack, Universe;
    ExpandStops(env, [], frame.path, frame.rest, 0, []);
    ExpandContents(env, [], frame.path, frame.rest, 0, [], |Universe(env)|);
  }

  lemma WeightOne(frame: Frame, longest: nat, depth: nat)
    requires |frame.rest| <= longest && 1 <= depth
    ensures Weight([frame], longest + 2, depth) <= (longest + 1) * Pow(longest + 2, depth)
  {
    hide Pow;
    var unit := Pow(longest + 2, depth);
    assert [frame][..0] == [];
    assert Weight([frame], longest + 2, depth) == (|frame.rest| + 1) * unit;
    assert (|frame.rest| + 1) * unit <= (longest + 1) * unit;
  }

  /** Three files: `root` includes `a` and `b`, and `a` includes `b`. */
  ghost predicate ThreeFiles(env: Env) {
    && env.files.Keys == {"root", "a", "b"}
    && env.files["root"] == [Include("*", false)] && env.files["a"] == [Include("b", false)]
    && env.glob("root", "*") == Matches(["a", "b"]) && env.glob("a", "b") == Matches(["b"])
  }

  lemma PushesBoth(env: Env)
    requires ThreeFiles(env)
    ensures OnStack(Universe(env), ["root"]) && OnStack(Universe(env), ["root", "b", "a"])
    ensures Push(env, ["root"], ["a", "b"], false) == Pushing(["root", "b", "a"], None)
    ensures Push(env, ["root", "b", "a"], ["b"], false) == Pushing(["root", "b", "a"], Some(Recursive("b")))
  {
    var list := ["a", "b"];
    assert OnStack(Universe(env), ["root"]) && OnStack(Universe(env), ["root", "b", "a"]);
    hide Push;
    assert list[..2] == list && list[..1] == ["a"] && ["b"][..1] == ["b"];
    assert ["root"] + ["b"] == ["root", "b"] && ["root", "b"] + ["a"] == ["root", "b", "a"];
    PushStep(env, ["root"], list, 1, false);
    PushStep(env, ["root", "b"], list, 0, false);
    PushNone(env, ["root", "b", "a"], list, false);
    PushStep(env, ["root", "b", "a"], ["b"], 0, false);
  }

  lemma RefusedInA(env: Env)
    requires ThreeFiles(env)
    ensures OnStack(Universe(env), ["root", "b"] + ["a"])
    ensures Expand(env, ["root", "b"], "a", env.files["a"], 0, []) == Outcome([], Some(Failure("a", 1, Recursive("b"))))
  {
    PushesBoth(env);
    hide Push, ExpandAll;
    assert ["root", "b"] + ["a"] == ["root", "b", "a"];
  }

  lemma RefusedInRoot(env: Env)
    requires ThreeFiles(env)
    ensures OnStack(Universe(env), [] + ["root"])
    ensures Expand(env, [], "root", env.files["root"], 0, []) == Outcome([], Some(Failure("a", 1, Recursive("b"))))
  {
    PushesBoth(env);
    RefusedInA(env);
    hide Push, OnStack, Universe, ExpandAll;
    assert [] + ["root"] == ["root"] && ["root", "b", "a"][1..] == ["b"] + ["a"];
    assert ["root"] + (["b"] + ["a"]) == ["root", "b", "a"] && ["root"] + ["b"] == ["root", "b"];
    ExpandAllStep(env, ["root"], ["b"], "a", []);
  }

  /** The parse of such files stops in the first line of `a`, although nothing is recursive. */
  method WaitingFileRefused() returns (failure: Option<Failure>)
    ensures failure == Some(Failure("a", 1, Recursive("b")))
  {
    var files := map["root" := [Include("*", false)], "a" := [Include("b", false)], "b" := []];
    var glob := (path: string, pattern: string) => if pattern == "*" then Matches(["a", "b"]) else Matches([pattern]);
    var env := Env(files, glob, _ => false);
    assert files.Keys == {"root", "a", "b"};
    assert ThreeFiles(env);
    hide ThreeFiles, Expand, OnStack, Universe;
    RefusedInRoot(env);
    var parser := new Parser(env);
    var found, r := parser.ParseFile(Some("root"));
    return r;
  }
}
