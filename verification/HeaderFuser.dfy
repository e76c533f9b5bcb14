/** fuse_gtest_files.py: gtest.h and the headers it includes, written to one
    file. Reading is a map from paths to lines, in which the include lines of
    gtest headers are already told from the rest. */
module HeaderFuser {
  type Path = string

  /** An include line carries the path of the header as ProcessFile gets it. */
  datatype Line = Include(header: Path) | Text(text: string)

  type Files = map<Path, seq<Line>>
  type Paths = set<Path>
  type Origins = set<Origin>

  /** Where an output line was read. */
  datatype Origin = Origin(path: Path, index: nat)

  predicate IsText(files: Files, x: Origin) {
    x.path in files && x.index < |files[x.path]| && files[x.path][x.index].Text?
  }

  function TextAt(files: Files, x: Origin): string {
    if IsText(files, x) then files[x.path][x.index].text else ""
  }

  function TextsAt(files: Files, origins: seq<Origin>): seq<string> {
    seq(|origins|, i requires 0 <= i < |origins| => TextAt(files, origins[i]))
  }

  lemma TextsAtAppend(files: Files, a: seq<Origin>, b: seq<Origin>)
    ensures TextsAt(files, a + b) == TextsAt(files, a) + TextsAt(files, b)
  {
  }

  // ---------------------------------------------------------------------
  // The walk as a function
  // ---------------------------------------------------------------------

  /** Missing stands for the exception on a header that is not there. */
  datatype Walk = Missing | Done(processed: Paths, origins: seq<Origin>)

  function WalkFile(files: Files, path: Path, processed: Paths): (w: Walk)
    ensures w.Done? ==> processed <= w.processed
    decreases files.Keys - processed, 0
  {
    if path in processed then Done(processed, [])
    else if path !in files then Missing
    else WalkLines(files, path, 0, processed + {path})
  }

  // The lines of path from number i on.
  function WalkLines(files: Files, path: Path, i: nat, processed: Paths): (w: Walk)
    requires path in files && i <= |files[path]|
    ensures w.Done? ==> processed <= w.processed
    decreases files.Keys - processed, 1 + |files[path]| - i
  {
    if i == |files[path]| then Done(processed, [])
    else
      match files[path][i]
      case Text(_) => After([Origin(path, i)], WalkLines(files, path, i + 1, processed))
      case Include(header) =>
        match WalkFile(files, header, processed)
        case Missing => Missing
        case Done(processed', origins) => After(origins, WalkLines(files, path, i + 1, processed'))
  }

  function After(origins: seq<Origin>, w: Walk): Walk {
    match w
    case Missing => Missing
    case Done(processed, more) => Done(processed, origins + more)
  }

  // ---------------------------------------------------------------------
  // Reachability along include lines
  // ---------------------------------------------------------------------

  predicate Includes(files: Files, p: Path, q: Path) {
    p in files && Include(q) in files[p]
  }

  predicate IsRoute(files: Files, route: seq<Path>, p: Path, q: Path) {
    && route != [] && route[0] == p && route[|route| - 1] == q
    && forall i | 0 <= i < |route| - 1 :: Includes(files, route[i], route[i + 1])
  }

  ghost predicate Reaches(files: Files, p: Path, q: Path) {
    exists route :: IsRoute(files, route, p, q)
  }

  lemma ReachesSelf(files: Files, p: Path)
    ensures Reaches(files, p, p)
  {
    assert IsRoute(files, [p], p, p);
  }

  lemma ReachesStep(files: Files, p: Path, q: Path, r: Path)
    requires Includes(files, p, q) && Reaches(files, q, r)
    ensures Reaches(files, p, r)
  {
    var route :| IsRoute(files, route, q, r);
    assert IsRoute(files, [p] + route, p, r);
  }

  ghost predicate Closed(files: Files, s: Paths) {
    forall p, q :: p in s && Includes(files, p, q) ==> q in s
  }

  lemma {:induction false} ClosedHoldsReachable(files: Files, s: Paths, route: seq<Path>, p: Path, q: Path)
    requires Closed(files, s) && p in s && IsRoute(files, route, p, q)
    ensures q in s
    decreases |route|
  {
    if |route| > 1 {
      assert Includes(files, route[0], route[1]);
      assert IsRoute(files, route[1..], route[1], q);
      ClosedHoldsReachable(files, s, route[1..], route[1], q);
    }
  }

  // ---------------------------------------------------------------------
  // Only reachable headers are visited
  // ---------------------------------------------------------------------

  ghost predicate SoundFrom(files: Files, path: Path, processed: Paths, w: Walk) {
    match w
    case Missing => exists q :: Reaches(files, path, q) && q !in files
    case Done(processed', _) => forall q | q in processed' && q !in processed :: Reaches(files, path, q)
  }

  lemma {:induction false} FileSound(files: Files, path: Path, processed: Paths)
    ensures SoundFrom(files, path, processed, WalkFile(files, path, processed))
    decreases files.Keys - processed, 0
  {
    ReachesSelf(files, path);
    if path !in processed && path in files {
      LinesSound(files, path, 0, processed + {path});
    }
  }

  lemma {:induction false} LinesSound(files: Files, path: Path, i: nat, processed: Paths)
    requires path in files && i <= |files[path]|
    ensures SoundFrom(files, path, processed, WalkLines(files, path, i, processed))
    decreases files.Keys - processed, 1 + |files[path]| - i
  {
    if i == |files[path]| {
    } else {
      match files[path][i]
      case Text(_) => LinesSound(files, path, i + 1, processed);
      case Include(header) =>
        var w := WalkFile(files, header, processed);
        FileSound(files, header, processed);
        assert Includes(files, path, header);
        SoundStep(files, path, header, processed, w);
        if w.Done? {
          LinesSound(files, path, i + 1, w.processed);
        }
    }
  }

  lemma SoundStep(files: Files, path: Path, header: Path, processed: Paths, w: Walk)
    requires Includes(files, path, header) && SoundFrom(files, header, processed, w)
    ensures SoundFrom(files, path, processed, w)
  {
    match w
    case Missing =>
      var q :| Reaches(files, header, q) && q !in files;
      ReachesStep(files, path, header, q);
    case Done(processed', _) =>
      forall q | q in processed' && q !in processed ensures Reaches(files, path, q) {
        ReachesStep(files, path, header, q);
      }
  }

  // ---------------------------------------------------------------------
  // Every reachable header is visited
  // ---------------------------------------------------------------------

  ghost predicate CompleteFrom(files: Files, processed: Paths, processed': Paths) {
    forall p | p in processed' && p !in processed :: p in files && forall q :: Includes(files, p, q) ==> q in processed'
  }

  lemma {:induction false} FileComplete(files: Files, path: Path, processed: Paths)
    ensures var w := WalkFile(files, path, processed);
            w.Done? ==> path in w.processed && CompleteFrom(files, processed, w.processed)
    decreases files.Keys - processed, 0
  {
    if path !in processed && path in files {
      LinesComplete(files, path, 0, processed + {path});
    }
  }

  lemma {:induction false} LinesComplete(files: Files, path: Path, i: nat, processed: Paths)
    requires path in files && i <= |files[path]|
    ensures var w := WalkLines(files, path, i, processed);
            w.Done? ==>
              && CompleteFrom(files, processed, w.processed)
              && forall q :: Include(q) in files[path][i..] ==> q in w.processed
    decreases files.Keys - processed, 1 + |files[path]| - i
  {
    if i == |files[path]| {
    } else {
      assert files[path][i..] == [files[path][i]] + files[path][i + 1..];
      match files[path][i]
      case Text(_) => LinesComplete(files, path, i + 1, processed);
      case Include(header) =>
        var w := WalkFile(files, header, processed);
        FileComplete(files, header, processed);
        if w.Done? {
          LinesComplete(files, path, i + 1, w.processed);
        }
    }
  }

  /** The walk visits exactly the headers that the seed reaches, and fails
      exactly when one of them is missing. */
  lemma VisitsReachable(files: Files, seed: Path)
    ensures var w := WalkFile(files, seed, {});
            && (w.Done? <==> forall q | Reaches(files, seed, q) :: q in files)
            && (w.Done? ==> forall q :: q in w.processed <==> Reaches(files, seed, q))
  {
    var w := WalkFile(files, seed, {});
    FileSound(files, seed, {});
    FileComplete(files, seed, {});
    if w.Done? {
      forall q | Reaches(files, seed, q) ensures q in w.processed && q in files {
        var route :| IsRoute(files, route, seed, q);
        ClosedHoldsReachable(files, w.processed, route, seed, q);
      }
    }
  }

  // ---------------------------------------------------------------------
  // What is written
  // ---------------------------------------------------------------------

  lemma {:induction false} FileContents(files: Files, path: Path, processed: Paths, x: Origin)
    ensures var w := WalkFile(files, path, processed);
            w.Done? ==> (x in w.origins <==> IsText(files, x) && x.path in w.processed && x.path !in processed)
    decreases files.Keys - processed, 0
  {
    if path !in processed && path in files {
      LinesContents(files, path, 0, processed + {path}, x);
    }
  }

  lemma {:induction false} LinesContents(files: Files, path: Path, i: nat, processed: Paths, x: Origin)
    requires path in files && i <= |files[path]| && path in processed
    ensures var w := WalkLines(files, path, i, processed);
            w.Done? ==> (x in w.origins <==>
              IsText(files, x) && x.path in w.processed && (x.path !in processed || (x.path == path && i <= x.index)))
    decreases files.Keys - processed, 1 + |files[path]| - i
  {
    if i == |files[path]| {
    } else {
      match files[path][i]
      case Text(_) => LinesContents(files, path, i + 1, processed, x);
      case Include(header) =>
        var w := WalkFile(files, header, processed);
        FileContents(files, header, processed, x);
        if w.Done? {
          LinesContents(files, path, i + 1, w.processed, x);
        }
    }
  }

  /** Lines of one header keep their order; so none is written twice. */
  predicate InFileOrder(origins: seq<Origin>) {
    forall a, b | 0 <= a < b < |origins| :: origins[a].path == origins[b].path ==> origins[a].index < origins[b].index
  }

  lemma {:induction false} FileInOrder(files: Files, path: Path, processed: Paths)
    ensures var w := WalkFile(files, path, processed); w.Done? ==> InFileOrder(w.origins)
    decreases files.Keys - processed, 0
  {
    if path !in processed && path in files {
      LinesInOrder(files, path, 0, processed + {path});
    }
  }

  lemma {:induction false} LinesInOrder(files: Files, path: Path, i: nat, processed: Paths)
    requires path in files && i <= |files[path]| && path in processed
    ensures var w := WalkLines(files, path, i, processed); w.Done? ==> InFileOrder(w.origins)
    decreases files.Keys - processed, 1 + |files[path]| - i
  {
    if i == |files[path]| {
    } else {
      match files[path][i]
      case Text(_) =>
        LinesInOrder(files, path, i + 1, processed);
        var w := WalkLines(files, path, i + 1, processed);
        if w.Done? {
          forall x ensures x in w.origins && x.path == path ==> i < x.index {
            LinesContents(files, path, i + 1, processed, x);
          }
          InOrderAppend([Origin(path, i)], w.origins);
        }
      case Include(header) =>
        FileInOrder(files, header, processed);
        var w := WalkFile(files, header, processed);
        if w.Done? {
          LinesInOrder(files, path, i + 1, w.processed);
          var more := WalkLines(files, path, i + 1, w.processed);
          if more.Done? {
            forall x, y ensures x in w.origins && y in more.origins ==> x.path != y.path {
              FileContents(files, header, processed, x);
              LinesContents(files, path, i + 1, w.processed, y);
            }
            InOrderAppend(w.origins, more.origins);
          }
        }
    }
  }

  lemma InOrderAppend(a: seq<Origin>, b: seq<Origin>)
    requires InFileOrder(a) && InFileOrder(b)
    requires forall x, y | x in a && y in b :: x.path == y.path ==> x.index < y.index
    ensures InFileOrder(a + b)
  {
    var ab := a + b;
    forall i, j | 0 <= i < j < |ab| ensures ab[i].path == ab[j].path ==> ab[i].index < ab[j].index {
      if i < |a| <= j {
        assert ab[i] in a && ab[j] in b;
      }
    }
  }

  /** The fused header holds the text lines of the reachable headers, each
      once and in the order of its file, and nothing else. */
  lemma WritesReachableTextOnce(files: Files, seed: Path)
    ensures var w := WalkFile(files, seed, {});
            w.Done? ==>
              && (forall x :: x in w.origins <==> IsText(files, x) && Reaches(files, seed, x.path))
              && InFileOrder(w.origins)
              && (forall a, b | 0 <= a < b < |w.origins| :: w.origins[a] != w.origins[b])
  {
    var w := WalkFile(files, seed, {});
    VisitsReachable(files, seed);
    FileInOrder(files, seed, {});
    if w.Done? {
      forall x ensures x in w.origins <==> IsText(files, x) && Reaches(files, seed, x.path) {
        FileContents(files, seed, {}, x);
      }
    }
  }

  // ---------------------------------------------------------------------
  // Included text comes first, however deep
  // ---------------------------------------------------------------------

  /** q is included ahead of line x in the file of x. */
  predicate IncludesBefore(files: Files, x: Origin, q: Path) {
    x.path in files && x.index <= |files[x.path]| && Include(q) in files[x.path][..x.index]
  }

  /** What must hold of a line x that is written ahead of y: if a header
      included ahead of x leads to the file of y, it also leads back to x. */
  ghost predicate MayPrecede(files: Files, x: Origin, y: Origin) {
    forall q | IncludesBefore(files, x, q) && Reaches(files, q, y.path) :: Reaches(files, q, x.path)
  }

  ghost predicate IncludedFirst(files: Files, origins: seq<Origin>) {
    forall a, b | 0 <= a < b < |origins| :: MayPrecede(files, origins[a], origins[b])
  }

  lemma IncludedFirstAppend(files: Files, a: seq<Origin>, b: seq<Origin>)
    requires IncludedFirst(files, a) && IncludedFirst(files, b)
    requires forall x, y | x in a && y in b :: MayPrecede(files, x, y)
    ensures IncludedFirst(files, a + b)
  {
    hide MayPrecede;
    var ab := a + b;
    forall i, j | 0 <= i < j < |ab| ensures MayPrecede(files, ab[i], ab[j]) {
      if i < |a| <= j {
        assert ab[i] in a && ab[j] in b;
      }
    }
  }

  lemma ReachesTrans(files: Files, p: Path, q: Path, r: Path)
    requires Reaches(files, p, q) && Reaches(files, q, r)
    ensures Reaches(files, p, r)
  {
    var s :| IsRoute(files, s, p, q);
    var t :| IsRoute(files, t, q, r);
    var route := s + t[1..];
    forall i | 0 <= i < |route| - 1 ensures Includes(files, route[i], route[i + 1]) {
      if i >= |s| - 1 {
        assert Includes(files, t[i - (|s| - 1)], t[i - (|s| - 1) + 1]);
      }
    }
    assert IsRoute(files, route, p, r);
  }

  /** Where the walk stands: the headers in progress all lead to path, and of
      the other processed ones everything they include is processed. */
  ghost predicate Standing(files: Files, path: Path, processed: Paths, inProgress: Paths) {
    && (forall g | g in inProgress :: Reaches(files, g, path))
    && ClosedOutside(files, processed, inProgress)
  }

  // Of the processed headers, those not in progress have everything they
  // include processed.
  ghost predicate ClosedOutside(files: Files, processed: Paths, inProgress: Paths) {
    forall p, q | p in processed && p !in inProgress && Includes(files, p, q) :: q in processed
  }

  // A route out of the processed headers goes through one in progress.
  lemma {:induction false} RouteOut(files: Files, path: Path, processed: Paths, inProgress: Paths,
                                    route: seq<Path>, p: Path, q: Path)
    requires Standing(files, path, processed, inProgress)
    requires p in processed && q !in processed && IsRoute(files, route, p, q)
    ensures Reaches(files, p, path)
    decreases |route|
  {
    if p !in inProgress {
      assert |route| > 1;
      assert Includes(files, route[0], route[1]);
      assert IsRoute(files, route[1..], route[1], q);
      RouteOut(files, path, processed, inProgress, route[1..], route[1], q);
      ReachesStep(files, p, route[1], path);
    }
  }

  lemma WayOut(files: Files, path: Path, processed: Paths, inProgress: Paths, p: Path, q: Path)
    requires Standing(files, path, processed, inProgress)
    requires p in processed && Reaches(files, p, q) && (q !in processed || q == path)
    ensures Reaches(files, p, path)
  {
    if q != path {
      var route :| IsRoute(files, route, p, q);
      RouteOut(files, path, processed, inProgress, route, p, q);
    }
  }

  lemma {:induction false} FileIncludedFirst(files: Files, path: Path, processed: Paths, inProgress: Paths)
    requires Standing(files, path, processed, inProgress)
    ensures var w := WalkFile(files, path, processed); w.Done? ==> IncludedFirst(files, w.origins)
    decreases files.Keys - processed, 0
  {
    if path !in processed && path in files {
      ReachesSelf(files, path);
      LinesIncludedFirst(files, path, 0, processed + {path}, inProgress + {path});
    }
  }

  // Going on to an included header, and coming back from it.
  lemma StandingAtHeader(files: Files, path: Path, header: Path, processed: Paths, inProgress: Paths)
    requires Standing(files, path, processed, inProgress) && Includes(files, path, header)
    ensures Standing(files, header, processed, inProgress)
  {
    ReachesSelf(files, header);
    ReachesStep(files, path, header, header);
    forall g | g in inProgress ensures Reaches(files, g, header) {
      ReachesTrans(files, g, path, header);
    }
  }

  lemma StandingAfterHeader(files: Files, path: Path, header: Path, processed: Paths, inProgress: Paths)
    requires Standing(files, path, processed, inProgress)
    ensures var w := WalkFile(files, header, processed); w.Done? ==> Standing(files, path, w.processed, inProgress)
  {
    FileComplete(files, header, processed);
  }

  lemma {:induction false} LinesIncludedFirst(files: Files, path: Path, i: nat, processed: Paths, inProgress: Paths)
    requires path in files && i <= |files[path]| && path in processed
    requires Standing(files, path, processed, inProgress)
    requires forall q :: Include(q) in files[path][..i] ==> q in processed
    ensures var w := WalkLines(files, path, i, processed); w.Done? ==> IncludedFirst(files, w.origins)
    decreases files.Keys - processed, 1 + |files[path]| - i
  {
    hide Standing, IncludedFirst;
    if i == |files[path]| {
      NothingIsFirst(files);
    } else {
      assert files[path][..i + 1] == files[path][..i] + [files[path][i]];
      match files[path][i]
      case Text(_) =>
        LinesIncludedFirst(files, path, i + 1, processed, inProgress);
        TextIncludedFirst(files, path, i, processed, inProgress);
      case Include(header) =>
        assert Includes(files, path, header);
        StandingAtHeader(files, path, header, processed, inProgress);
        StandingAfterHeader(files, path, header, processed, inProgress);
        FileComplete(files, header, processed);
        FileIncludedFirst(files, header, processed, inProgress);
        var w := WalkFile(files, header, processed);
        if w.Done? {
          LinesIncludedFirst(files, path, i + 1, w.processed, inProgress);
          HeaderIncludedFirst(files, path, i, processed, inProgress);
        }
    }
  }

  lemma NothingIsFirst(files: Files)
    ensures IncludedFirst(files, [])
  {
  }

  lemma TextIncludedFirst(files: Files, path: Path, i: nat, processed: Paths, inProgress: Paths)
    requires path in files && i < |files[path]| && path in processed && files[path][i].Text?
    requires Standing(files, path, processed, inProgress)
    requires forall q :: Include(q) in files[path][..i] ==> q in processed
    requires var more := WalkLines(files, path, i + 1, processed); more.Done? ==> IncludedFirst(files, more.origins)
    ensures var w := WalkLines(files, path, i, processed); w.Done? ==> IncludedFirst(files, w.origins)
  {
    var more := WalkLines(files, path, i + 1, processed);
    if more.Done? {
      hide Standing;
      var x := Origin(path, i);
      forall y, q | y in more.origins && IncludesBefore(files, x, q) && Reaches(files, q, y.path)
        ensures Reaches(files, q, x.path)
      {
        LinesContents(files, path, i + 1, processed, y);
        WayOut(files, path, processed, inProgress, q, y.path);
      }
      IncludedFirstAppend(files, [x], more.origins);
    }
  }

  lemma HeaderIncludedFirst(files: Files, path: Path, i: nat, processed: Paths, inProgress: Paths)
    requires path in files && i < |files[path]| && path in processed && files[path][i].Include?
    requires var w := WalkFile(files, files[path][i].header, processed);
             && w.Done? && IncludedFirst(files, w.origins) && Standing(files, path, w.processed, inProgress)
             && var more := WalkLines(files, path, i + 1, w.processed);
                more.Done? ==> IncludedFirst(files, more.origins)
    ensures var w := WalkLines(files, path, i, processed); w.Done? ==> IncludedFirst(files, w.origins)
  {
    var header := files[path][i].header;
    var w := WalkFile(files, header, processed);
    var more := WalkLines(files, path, i + 1, w.processed);
    if more.Done? {
      hide Standing;
      FileComplete(files, header, processed);
      FileSound(files, header, processed);
      assert Includes(files, path, header);
      forall x, y, q | x in w.origins && y in more.origins && IncludesBefore(files, x, q) && Reaches(files, q, y.path)
        ensures Reaches(files, q, x.path)
      {
        FileContents(files, header, processed, x);
        LinesContents(files, path, i + 1, w.processed, y);
        assert Includes(files, x.path, q);
        WayOut(files, path, w.processed, inProgress, q, y.path);
        ReachesStep(files, path, header, x.path);
        ReachesTrans(files, q, path, x.path);
      }
      IncludedFirstAppend(files, w.origins, more.origins);
    }
  }

  /** Text that an included header leads to, directly or through any number of
      further includes, comes before the later text of the includer, unless
      that header leads back to the includer. */
  lemma ReachedBeforeUse(files: Files, seed: Path, a: nat, b: nat, q: Path)
    requires var w := WalkFile(files, seed, {});
             && w.Done? && a < |w.origins| && b < |w.origins|
             && IncludesBefore(files, w.origins[a], q) && Reaches(files, q, w.origins[b].path)
             && !Reaches(files, q, w.origins[a].path)
    ensures b < a
  {
    FileIncludedFirst(files, seed, {}, {});
  }

  /** The case of a header that is itself included. */
  lemma DeclaredBeforeUse(files: Files, seed: Path, a: nat, b: nat)
    requires var w := WalkFile(files, seed, {});
             && w.Done? && a < |w.origins| && b < |w.origins|
             && IncludesBefore(files, w.origins[a], w.origins[b].path)
             && !Reaches(files, w.origins[b].path, w.origins[a].path)
    ensures b < a
  {
    var q := WalkFile(files, seed, {}).origins[b].path;
    ReachesSelf(files, q);
    ReachedBeforeUse(files, seed, a, b, q);
  }

  // ---------------------------------------------------------------------
  // The order, without a set of processed headers
  // ---------------------------------------------------------------------

  /** Plain textual inclusion: every include line is replaced by the expansion
      of its header, again and again, except that a header is not expanded
      within itself. */
  function ExpandFile(files: Files, path: Path, within: Paths): seq<Origin>
    decreases files.Keys - within, 0
  {
    if path in within || path !in files then [] else ExpandLines(files, path, 0, within + {path})
  }

  function ExpandLines(files: Files, path: Path, i: nat, within: Paths): seq<Origin>
    requires path in files && i <= |files[path]|
    decreases files.Keys - within, 1 + |files[path]| - i
  {
    if i == |files[path]| then []
    else
      match files[path][i]
      case Text(_) => [Origin(path, i)] + ExpandLines(files, path, i + 1, within)
      case Include(header) => ExpandFile(files, header, within) + ExpandLines(files, path, i + 1, within)
  }

  /** The first occurrences in s of what has not been seen. */
  function Unseen(s: seq<Origin>, seen: Origins): seq<Origin> {
    if s == [] then []
    else if s[0] in seen then Unseen(s[1..], seen)
    else [s[0]] + Unseen(s[1..], seen + {s[0]})
  }

  function Members(s: seq<Origin>): Origins { set x | x in s }

  lemma {:induction false} UnseenMembers(s: seq<Origin>, seen: Origins, x: Origin)
    ensures x in Unseen(s, seen) <==> x in s && x !in seen
  {
    if s != [] {
      assert s == [s[0]] + s[1..];
      UnseenMembers(s[1..], if s[0] in seen then seen else seen + {s[0]}, x);
    }
  }

  lemma {:induction false} UnseenAppend(a: seq<Origin>, b: seq<Origin>, seen: Origins)
    ensures Unseen(a + b, seen) == Unseen(a, seen) + Unseen(b, seen + Members(a))
  {
    if a == [] {
      assert a + b == b && seen + Members(a) == seen;
    } else {
      var seen' := if a[0] in seen then seen else seen + {a[0]};
      UnseenAppend(a[1..], b, seen');
      assert (a + b)[1..] == a[1..] + b && a == [a[0]] + a[1..];
      assert seen' + Members(a[1..]) == seen + Members(a);
    }
  }

  // Expanding a processed header gives lines of finished headers only.
  lemma {:induction false} FileFinished(files: Files, path: Path, within: Paths,
                                        processed: Paths, inProgress: Paths, x: Origin)
    requires ClosedOutside(files, processed, inProgress) && inProgress <= within
    requires path in processed && x in ExpandFile(files, path, within)
    ensures IsText(files, x) && x.path in processed && x.path !in inProgress
    decreases files.Keys - within, 0
  {
    LinesFinished(files, path, 0, within + {path}, processed, inProgress, x);
  }

  lemma {:induction false} LinesFinished(files: Files, path: Path, i: nat, within: Paths,
                                         processed: Paths, inProgress: Paths, x: Origin)
    requires ClosedOutside(files, processed, inProgress) && inProgress <= within
    requires path in files && i <= |files[path]| && path in processed && path !in inProgress
    requires x in ExpandLines(files, path, i, within)
    ensures IsText(files, x) && x.path in processed && x.path !in inProgress
    decreases files.Keys - within, 1 + |files[path]| - i
  {
    match files[path][i]
    case Text(_) =>
      if x != Origin(path, i) {
        LinesFinished(files, path, i + 1, within, processed, inProgress, x);
      }
    case Include(header) =>
      assert Includes(files, path, header);
      if x in ExpandFile(files, header, within) {
        FileFinished(files, header, within, processed, inProgress, x);
      } else {
        LinesFinished(files, path, i + 1, within, processed, inProgress, x);
      }
  }

  // What has been written when the walk stands before line i of path: the
  // text of the finished headers, and none of the headers to come.
  ghost predicate Written(files: Files, processed: Paths, inProgress: Paths, seen: Origins) {
    && inProgress <= processed
    && ClosedOutside(files, processed, inProgress)
    && (forall x | IsText(files, x) && x.path in processed && x.path !in inProgress :: x in seen)
    && (forall x | x in seen :: x.path in processed)
  }

  ghost predicate NotYet(path: Path, i: nat, seen: Origins) {
    forall x | x in seen && x.path == path :: x.index < i
  }

  lemma {:induction false} FileIsUnseen(files: Files, path: Path, processed: Paths, inProgress: Paths, seen: Origins)
    requires Written(files, processed, inProgress, seen)
    ensures var w := WalkFile(files, path, processed);
            w.Done? ==> w.origins == Unseen(ExpandFile(files, path, inProgress), seen)
    decreases files.Keys - processed, 0
  {
    if path in inProgress {
    } else if path in processed {
      var expanded := ExpandFile(files, path, inProgress);
      var unseen := Unseen(expanded, seen);
      if unseen != [] {
        UnseenMembers(expanded, seen, unseen[0]);
        FileFinished(files, path, inProgress, processed, inProgress, unseen[0]);
      }
    } else if path in files {
      LinesAreUnseen(files, path, 0, processed + {path}, inProgress + {path}, seen);
    }
  }

  lemma {:induction false} LinesAreUnseen(files: Files, path: Path, i: nat,
                                          processed: Paths, inProgress: Paths, seen: Origins)
    requires Written(files, processed, inProgress, seen) && NotYet(path, i, seen)
    requires path in files && i <= |files[path]| && path in inProgress
    ensures var w := WalkLines(files, path, i, processed);
            w.Done? ==> w.origins == Unseen(ExpandLines(files, path, i, inProgress), seen)
    decreases files.Keys - processed, 1 + |files[path]| - i
  {
    if i == |files[path]| {
    } else {
      match files[path][i]
      case Text(_) =>
        var x := Origin(path, i);
        LinesAreUnseen(files, path, i + 1, processed, inProgress, seen + {x});
        var more := ExpandLines(files, path, i + 1, inProgress);
        assert ([x] + more)[1..] == more;
      case Include(header) =>
        var w := WalkFile(files, header, processed);
        if w.Done? {
          var expanded := ExpandFile(files, header, inProgress);
          FileIsUnseen(files, header, processed, inProgress, seen);
          WrittenAfterHeader(files, path, i, header, processed, inProgress, seen);
          LinesAreUnseen(files, path, i + 1, w.processed, inProgress, seen + Members(expanded));
          UnseenAppend(expanded, ExpandLines(files, path, i + 1, inProgress), seen);
        }
    }
  }

  lemma WrittenAfterHeader(files: Files, path: Path, i: nat, header: Path,
                           processed: Paths, inProgress: Paths, seen: Origins)
    requires Written(files, processed, inProgress, seen) && NotYet(path, i, seen) && path in inProgress
    requires var w := WalkFile(files, header, processed);
             w.Done? && w.origins == Unseen(ExpandFile(files, header, inProgress), seen)
    ensures var seen' := seen + Members(ExpandFile(files, header, inProgress));
            && Written(files, WalkFile(files, header, processed).processed, inProgress, seen')
            && NotYet(path, i + 1, seen')
  {
    var w, expanded := WalkFile(files, header, processed), ExpandFile(files, header, inProgress);
    FileComplete(files, header, processed);
    forall x ensures x in expanded || x in seen <==> x in w.origins || x in seen {
      UnseenMembers(expanded, seen, x);
    }
    forall x ensures x in w.origins <==> IsText(files, x) && x.path in w.processed && x.path !in processed {
      FileContents(files, header, processed, x);
    }
  }

  /** The fused header is plain textual inclusion with only the first occurrence
      of each line kept. */
  lemma FusedIsFirstOccurrences(files: Files, seed: Path)
    ensures var w := WalkFile(files, seed, {});
            w.Done? ==> w.origins == Unseen(ExpandFile(files, seed, {}), {})
  {
    FileIsUnseen(files, seed, {}, {}, {});
  }

  // ---------------------------------------------------------------------
  // The fuser
  // ---------------------------------------------------------------------

  class HeaderWriter {
    const files: Files
    var processedFiles: Paths
    var output: seq<string>

    constructor (files: Files)
      ensures this.files == files && processedFiles == {} && output == []
    {
      this.files := files;
      processedFiles := {};
      output := [];
    }

    method ProcessFile(path: Path) returns (ok: bool)
      modifies this
      ensures match WalkFile(files, path, old(processedFiles))
              case Missing => !ok
              case Done(processed, origins) =>
                ok && processedFiles == processed && output == old(output) + TextsAt(files, origins)
      decreases files.Keys - processedFiles
    {
      if path in processedFiles {
        assert output == output + TextsAt(files, []);
        return true;
      }
      processedFiles := processedFiles + {path};
      if path !in files {
        return false;
      }
      ghost var start := processedFiles;
      ghost var origins: seq<Origin> := [];
      AfterNothing(WalkLines(files, path, 0, start));
      for i := 0 to |files[path]|
        invariant start <= processedFiles
        invariant WalkLines(files, path, 0, start) == After(origins, WalkLines(files, path, i, processedFiles))
        invariant output == old(output) + TextsAt(files, origins)
      {
        ghost var before := WalkLines(files, path, i, processedFiles);
        ghost var written: seq<Origin>;
        match files[path][i] {
          case Include(header) =>
            ghost var inner := WalkFile(files, header, processedFiles);
            ok := ProcessFile(header);
            if !ok {
              return;
            }
            written := inner.origins;
          case Text(text) =>
            output := output + [text];
            written := [Origin(path, i)];
            assert TextsAt(files, written) == [text];
        }
        AfterAfter(origins, written, WalkLines(files, path, i + 1, processedFiles));
        TextsAtAppend(files, origins, written);
        origins := origins + written;
      }
      assert origins + [] == origins;
      return true;
    }
  }

  lemma AfterNothing(w: Walk)
    ensures After([], w) == w
  {
    if w.Done? {
      assert [] + w.origins == w.origins;
    }
  }

  lemma AfterAfter(a: seq<Origin>, b: seq<Origin>, w: Walk)
    ensures After(a, After(b, w)) == After(a + b, w)
  {
    if w.Done? {
      assert a + (b + w.origins) == a + b + w.origins;
    }
  }

  const GTEST_H_SEED: Path := "include/gtest/gtest.h"

  datatype Fused = NotFound | Header(lines: seq<string>)

  lemma FusedLinesAreText(files: Files, seed: Path)
    ensures var w := WalkFile(files, seed, {});
            w.Done? ==> forall i | 0 <= i < |w.origins| :: IsText(files, w.origins[i])
  {
    hide WalkFile, IsText;
    WritesReachableTextOnce(files, seed);
    var w := WalkFile(files, seed, {});
    assert w.Done? ==> forall i | 0 <= i < |w.origins| :: w.origins[i] in w.origins;
  }

  method FuseGTestH(files: Files) returns (fused: Fused)
    ensures var w := WalkFile(files, "include/gtest/gtest.h", {});
            && (fused.NotFound? <==> w.Missing?)
            && (w.Done? ==>
                  && |fused.lines| == |w.origins|
                  && forall i | 0 <= i < |w.origins| ::
                       var x := w.origins[i];
                       x.path in files && x.index < |files[x.path]|
                       && files[x.path][x.index] == Text(fused.lines[i]))
  {
    FusedLinesAreText(files, GTEST_H_SEED);
    var writer := new HeaderWriter(files);
    var ok := writer.ProcessFile(GTEST_H_SEED);
    if !ok {
      return NotFound;
    }
    return Header(writer.output);
  }
}
