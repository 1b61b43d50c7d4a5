/**
 * Remote directory paths and the directory auto-creation chain of the
 * outbound file-transferring handler.
 *
 * A remote directory such as "/foo/bar/baz" is decomposed into its
 * separator-delimited segments; walking them left to right while
 * accumulating a path yields the cumulative prefixes "/foo", "/foo/bar",
 * "/foo/bar/baz". With auto-creation on, every prefix that does not exist
 * yet is passed to mkdir, parents before children.
 */
module RemotePaths {
  import opened Wrappers

  /** The remote file separator. */
  const Separator: char := '/'

  /** p is an initial segment of s. */
  predicate IsPrefix(p: string, s: string) {
    |p| <= |s| && s[..|p|] == p
  }

  /** Position i closes a non-empty segment of path: the character before it is
      not a separator, and it is followed by a separator or by the end. */
  predicate EndsSegment(path: string, i: int) {
    && 0 < i <= |path|
    && path[i - 1] != Separator
    && (i == |path| || path[i] == Separator)
  }

  /** The pieces of path between separators; a leading separator gives an
      empty first piece, a trailing one an empty last piece. */
  function Split(path: string): (segs: seq<string>)
    ensures |segs| >= 1
    ensures forall i :: 0 <= i < |segs| ==> Separator !in segs[i]
    decreases |path|
  {
    if |path| == 0 then [""]
    else
      var init := Split(path[..|path| - 1]);
      var c := path[|path| - 1];
      if c == Separator then init + [""]
      else init[..|init| - 1] + [init[|init| - 1] + [c]]
  }

  /** Rebuilds a path from its segments. */
  function Join(segs: seq<string>): (path: string)
    decreases |segs|
  {
    if |segs| == 0 then ""
    else if |segs| == 1 then segs[0]
    else Join(segs[..|segs| - 1]) + [Separator] + segs[|segs| - 1]
  }

  /** Splitting loses nothing: joining the segments gives the path back. */
  lemma {:induction false} JoinSplit(path: string)
    ensures Join(Split(path)) == path
    decreases |path|
  {
    if |path| > 0 {
      var front := path[..|path| - 1];
      var c := path[|path| - 1];
      assert path == front + [c];
      JoinSplit(front);
      SplitSnoc(front, c);
      var init := Split(front);
      if c == Separator {
        JoinSplitSeparator(init, front);
      } else {
        JoinSplitPlain(init, front, c);
      }
    }
  }

  /** One more character either starts a new segment or extends the last one. */
  lemma SplitSnoc(front: string, c: char)
    ensures var init := Split(front);
      Split(front + [c]) == if c == Separator then init + [""]
                            else init[..|init| - 1] + [init[|init| - 1] + [c]]
  {
    var p := front + [c];
    assert p[..|p| - 1] == front;
  }

  /** The inductive step of JoinSplit for a trailing separator: the segments
      init of front gain an empty last segment. */
  lemma JoinSplitSeparator(init: seq<string>, front: string)
    requires |init| >= 1 && Join(init) == front
    ensures Join(init + [""]) == front + [Separator]
  {
    JoinSnoc(init, "");
    assert front + [Separator] + "" == front + [Separator];
  }

  /** The inductive step of JoinSplit for a trailing ordinary character c:
      the last of the segments init of front grows by c. */
  lemma JoinSplitPlain(init: seq<string>, front: string, c: char)
    requires |init| >= 1 && Join(init) == front
    ensures Join(init[..|init| - 1] + [init[|init| - 1] + [c]]) == front + [c]
  {
    var pre := init[..|init| - 1];
    var last := init[|init| - 1];
    JoinSnoc(pre, last + [c]);
    if |pre| == 0 {
      assert front == last;
    } else {
      var j := Join(pre) + [Separator];
      assert front == j + last;
      assert j + (last + [c]) == (j + last) + [c];
    }
  }

  /** Joining one more segment appends a separator and the segment. */
  lemma JoinSnoc(pre: seq<string>, x: string)
    ensures Join(pre + [x]) == if |pre| == 0 then x else Join(pre) + [Separator] + x
  {
    assert (pre + [x])[..|pre|] == pre;
  }

  /** Appending separator-free text extends the last segment only. */
  lemma {:induction false} SplitAppendPlain(p: string, t: string)
    requires Separator !in t
    ensures var s := Split(p);
      Split(p + t) == s[..|s| - 1] + [s[|s| - 1] + t]
    decreases |t|
  {
    var s := Split(p);
    if |t| == 0 {
      assert p + t == p;
      ExtendLastEmpty(s, t);
    } else {
      var t' := t[..|t| - 1];
      var c := t[|t| - 1];
      AppendLast(p, t);
      SplitAppendPlain(p, t');
      SplitAppendStep(p + t', c, s, t');
    }
  }

  /** Extending the last segment by nothing leaves the segments as they are. */
  lemma ExtendLastEmpty(s: seq<string>, t: string)
    requires |s| >= 1 && |t| == 0
    ensures s[..|s| - 1] + [s[|s| - 1] + t] == s
  {
    assert s[|s| - 1] + t == s[|s| - 1];
  }

  /** Taking the last character off t, as SplitAppendPlain's induction does. */
  lemma AppendLast(p: string, t: string)
    requires |t| > 0
    ensures t == t[..|t| - 1] + [t[|t| - 1]]
    ensures p + t == (p + t[..|t| - 1]) + [t[|t| - 1]]
    ensures t[|t| - 1] in t && forall x :: x in t[..|t| - 1] ==> x in t
  {
    assert t == t[..|t| - 1] + [t[|t| - 1]];
  }

  /** The inductive step of SplitAppendPlain: one more ordinary character c
      after the text u that already extends the last segment of s. */
  lemma SplitAppendStep(q: string, c: char, s: seq<string>, u: string)
    requires c != Separator && |s| >= 1
    requires Split(q) == s[..|s| - 1] + [s[|s| - 1] + u]
    ensures Split(q + [c]) == s[..|s| - 1] + [s[|s| - 1] + (u + [c])]
  {
    SplitSnoc(q, c);
    ExtendLastTwice(s, u, c);
  }

  /** Growing the last segment by u and then by c grows it by u + [c]. */
  lemma ExtendLastTwice(s: seq<string>, u: string, c: char)
    requires |s| >= 1
    ensures var init := s[..|s| - 1] + [s[|s| - 1] + u];
            init[..|init| - 1] + [init[|init| - 1] + [c]] == s[..|s| - 1] + [s[|s| - 1] + (u + [c])]
  {
    var init := s[..|s| - 1] + [s[|s| - 1] + u];
    assert init[..|init| - 1] == s[..|s| - 1];
    assert init[|init| - 1] + [c] == s[|s| - 1] + (u + [c]);
  }

  /** Joining separator-free segments and splitting again gives them back. */
  lemma {:induction false} SplitJoin(segs: seq<string>)
    requires |segs| >= 1
    requires forall i :: 0 <= i < |segs| ==> Separator !in segs[i]
    ensures Split(Join(segs)) == segs
    decreases |segs|
  {
    if |segs| == 1 {
      SplitAppendPlain("", segs[0]);
      assert "" + segs[0] == segs[0];
    } else {
      var init := segs[..|segs| - 1];
      SplitJoin(init);
      SplitJoinStep(init, segs[|segs| - 1]);
      assert init + [segs[|segs| - 1]] == segs;
    }
  }

  /** The inductive step of SplitJoin: one more segment after a separator. */
  lemma SplitJoinStep(init: seq<string>, last: string)
    requires |init| >= 1 && Separator !in last
    requires Split(Join(init)) == init
    ensures Split(Join(init + [last])) == init + [last]
  {
    var segs := init + [last];
    assert segs[..|segs| - 1] == init;
    var j0 := Join(init);
    var withSep := j0 + [Separator];
    assert withSep[..|withSep| - 1] == j0;
    assert Split(withSep) == init + [""];
    SplitAppendPlain(withSep, last);
    assert Join(segs) == withSep + last;
    assert (init + [""])[..|init|] == init;
    assert "" + last == last;
  }

  /** The cumulative paths named by the first k segments, for every k whose
      k-th segment is non-empty, in increasing k. */
  function Cumulative(segs: seq<string>): (chain: seq<string>)
    decreases |segs|
  {
    if |segs| == 0 then []
    else
      Cumulative(segs[..|segs| - 1])
      + (if segs[|segs| - 1] == "" then [] else [Join(segs)])
  }

  /** The directories an auto-creating transfer into dir walks through,
      parents first: the accumulated path after each non-empty segment. */
  function DirectoryChain(dir: string): (chain: seq<string>)
    ensures ChainShape(chain, dir)
  {
    JoinSplit(dir);
    CumulativeShape(Split(dir));
    Cumulative(Split(dir))
  }

  /** c lists exactly the prefixes of j that end a non-empty segment, by
      strictly increasing length. */
  ghost predicate ChainShape(c: seq<string>, j: string) {
    && (forall k :: 0 <= k < |c| ==> EndsSegment(j, |c[k]|) && c[k] == j[..|c[k]|])
    && (forall i :: EndsSegment(j, i) ==> j[..i] in c)
    && Ascending(c)
  }

  /** Lengths strictly increase along paths. */
  ghost predicate Ascending(paths: seq<string>) {
    forall k, l :: 0 <= k < l < |paths| ==> |paths[k]| < |paths[l]|
  }

  /** How the path of segs relates to the path of all but its last segment. */
  lemma JoinLast(segs: seq<string>)
    requires |segs| >= 2
    requires Separator !in segs[|segs| - 1]
    ensures var j0 := Join(segs[..|segs| - 1]);
            var j := Join(segs);
            && |j| == |j0| + 1 + |segs[|segs| - 1]|
            && j[|j0|] == Separator
            && (forall i :: 0 <= i <= |j0| ==> j[..i] == j0[..i])
            && (forall i :: 0 <= i < |j0| ==> j[i] == j0[i])
            && (forall i :: |j0| < i < |j| ==> j[i] != Separator)
  {
    var last := segs[|segs| - 1];
    var j0 := Join(segs[..|segs| - 1]);
    var j := Join(segs);
    assert j == j0 + [Separator] + last;
    forall i | |j0| < i < |j|
      ensures j[i] != Separator
    {
      assert j[i] == last[i - |j0| - 1];
    }
  }

  /** Every element of Cumulative(segs) is a prefix of the joined path that ends
      a non-empty segment, every such prefix occurs, and lengths strictly grow. */
  lemma {:induction false} CumulativeShape(segs: seq<string>)
    requires |segs| >= 1
    requires forall i :: 0 <= i < |segs| ==> Separator !in segs[i]
    ensures ChainShape(Cumulative(segs), Join(segs))
    decreases |segs|
  {
    if |segs| == 1 {
      CumulativeSingle(segs[0]);
      assert segs == [segs[0]];
    } else {
      var last := segs[|segs| - 1];
      var init := segs[..|segs| - 1];
      CumulativeShape(init);
      JoinLast(segs);
      assert Cumulative(segs) == Cumulative(init) + (if last == "" then [] else [Join(segs)]);
      ChainExtend(Cumulative(init), Join(init), Join(segs), last);
    }
  }

  /** The chain of a single separator-free segment. */
  lemma CumulativeSingle(last: string)
    requires Separator !in last
    ensures ChainShape(Cumulative([last]), Join([last]))
  {
    var j := Join([last]);
    var c := Cumulative([last]);
    assert j == last;
    assert [last][..0] == [];
    assert Cumulative([last][..0]) == [];
    assert c == if last == "" then [] else [last];
    assert forall m :: 0 <= m < |j| ==> j[m] in last;
    forall i | EndsSegment(j, i)
      ensures j[..i] in c
    {
      assert j[..|j|] == j;
    }
    if c != [] {
      assert j[|j| - 1] in last;
      assert j[..|j|] == j;
    }
  }

  /** Appending a separator and a segment to the path j0 extends its chain c0
      by the whole new path, when the segment is non-empty. */
  lemma ChainExtend(c0: seq<string>, j0: string, j: string, last: string)
    requires ChainShape(c0, j0)
    requires |j| == |j0| + 1 + |last|
    requires j[|j0|] == Separator
    requires forall i :: 0 <= i <= |j0| ==> j[..i] == j0[..i]
    requires forall i :: 0 <= i < |j0| ==> j[i] == j0[i]
    requires forall i :: |j0| < i < |j| ==> j[i] != Separator
    ensures ChainShape(c0 + (if last == "" then [] else [j]), j)
  {
    var c := c0 + (if last == "" then [] else [j]);
    forall k | 0 <= k < |c0|
      ensures EndsSegment(j, |c0[k]|) && c0[k] == j[..|c0[k]|]
    {
      var n := |c0[k]|;
      assert EndsSegment(j0, n);
      assert j[n - 1] == j0[n - 1];
      if n < |j0| {
        assert j[n] == j0[n];
      }
    }
    if last != "" {
      assert j[|j| - 1] != Separator;
      assert j[..|j|] == j;
      assert EndsSegment(j, |j|);
      forall k | 0 <= k < |c0|
        ensures |c0[k]| < |j|
      {
        assert EndsSegment(j0, |c0[k]|);
      }
    }
    forall i | EndsSegment(j, i)
      ensures j[..i] in c
    {
      if i <= |j0| {
        assert j[i - 1] == j0[i - 1];
        if i < |j0| {
          assert j[i] == j0[i];
        }
        assert EndsSegment(j0, i);
        assert j0[..i] in c0;
      } else {
        assert i == |j|;
        assert j[..i] == j;
      }
    }
  }

  /** The chain is exactly the prefixes of dir that end a non-empty segment,
      ordered parents first: each element is a proper prefix of every later one. */
  lemma ChainIsSegmentEnds(dir: string)
    ensures forall p :: p in DirectoryChain(dir) <==>
              exists i :: EndsSegment(dir, i) && p == dir[..i]
    ensures forall k, l :: 0 <= k < l < |DirectoryChain(dir)| ==>
              |DirectoryChain(dir)[k]| < |DirectoryChain(dir)[l]|
              && IsPrefix(DirectoryChain(dir)[k], DirectoryChain(dir)[l])
  {
    var c := DirectoryChain(dir);
    assert ChainShape(c, dir);
    forall p | p in c
      ensures exists i :: EndsSegment(dir, i) && p == dir[..i]
    {
      var k :| 0 <= k < |c| && c[k] == p;
      assert EndsSegment(dir, |c[k]|);
    }
    forall k, l | 0 <= k < l < |c|
      ensures IsPrefix(c[k], c[l])
    {
      assert c[l][..|c[k]|] == dir[..|c[k]|];
    }
  }

  /** A directory path not ending in a separator is itself the last, deepest
      element of its chain. */
  lemma ChainEndsAtDirectory(dir: string)
    requires |dir| > 0 && dir[|dir| - 1] != Separator
    ensures |DirectoryChain(dir)| > 0
    ensures DirectoryChain(dir)[|DirectoryChain(dir)| - 1] == dir
  {
    var c := DirectoryChain(dir);
    assert ChainShape(c, dir);
    assert EndsSegment(dir, |dir|);
    assert dir[..|dir|] == dir;
    assert dir in c;
    var k :| 0 <= k < |c| && c[k] == dir;
    var n := |c| - 1;
    assert |c[k]| <= |c[n]|;
    assert EndsSegment(dir, |c[n]|);
    assert c[n] == dir[..|c[n]|];
  }

  /** The paths of paths that are not in existing, in their original order. */
  function Missing(paths: seq<string>, existing: set<string>): (r: seq<string>)
    ensures forall p {:trigger p in r} :: p in r <==> p in paths && p !in existing
    ensures |r| <= |paths|
    decreases |paths|
  {
    if |paths| == 0 then []
    else
      var init := paths[..|paths| - 1];
      var p := paths[|paths| - 1];
      assert forall q :: q in paths <==> q in init || q == p;
      Missing(init, existing) + (if p in existing then [] else [p])
  }

  /** Each path is a proper prefix of every later one, parents first. */
  ghost predicate Nested(paths: seq<string>) {
    forall k, l :: 0 <= k < l < |paths| ==>
      |paths[k]| < |paths[l]| && IsPrefix(paths[k], paths[l])
  }

  /** Filtering keeps the order: a nested chain stays nested. */
  lemma {:induction false} MissingKeepsOrder(paths: seq<string>, existing: set<string>)
    requires Nested(paths)
    ensures Nested(Missing(paths, existing))
    decreases |paths|
  {
    if |paths| > 0 {
      var init := paths[..|paths| - 1];
      var p := paths[|paths| - 1];
      assert Nested(init);
      MissingKeepsOrder(init, existing);
      var r0 := Missing(init, existing);
      assert Missing(paths, existing) == r0 + (if p in existing then [] else [p]);
      forall k | 0 <= k < |r0|
        ensures |r0[k]| < |p| && IsPrefix(r0[k], p)
      {
        assert r0[k] in r0;
        assert r0[k] in init;
        var m :| 0 <= m < |init| && init[m] == r0[k];
        assert paths[m] == r0[k];
      }
    }
  }

  /** The directories handed to mkdir, in order, when creating dir over a remote
      side on which the directories in existing already exist. */
  function MkdirCalls(dir: string, existing: set<string>): (calls: seq<string>)
    ensures forall p :: p in calls <==> p in DirectoryChain(dir) && p !in existing
    ensures |calls| <= |DirectoryChain(dir)|
  {
    Missing(DirectoryChain(dir), existing)
  }

  /** mkdir is called exactly for the prefixes of dir ending a non-empty segment
      that do not exist yet, each once, parents before children. */
  lemma MkdirCallsSpec(dir: string, existing: set<string>)
    ensures forall p :: p in MkdirCalls(dir, existing) <==>
              p !in existing && exists i :: EndsSegment(dir, i) && p == dir[..i]
    ensures forall k, l :: 0 <= k < l < |MkdirCalls(dir, existing)| ==>
              IsPrefix(MkdirCalls(dir, existing)[k], MkdirCalls(dir, existing)[l])
              && MkdirCalls(dir, existing)[k] != MkdirCalls(dir, existing)[l]
  {
    ChainIsSegmentEnds(dir);
    MissingKeepsOrder(DirectoryChain(dir), existing);
  }

  /**
   * Directory auto-creation as the handler performs it: accumulate the
   * segments left to right and, after each non-empty one, check whether the
   * accumulated path exists and mkdir it when it does not. Returns the mkdir
   * calls issued and the remote directory set afterwards.
   */
  method CreateDirectories(dir: string, existing: set<string>)
    returns (calls: seq<string>, dirs: set<string>)
    ensures calls == MkdirCalls(dir, existing)
    ensures dirs == existing + Elems(DirectoryChain(dir))
  {
    var segs := Split(dir);
    var acc := "";
    calls := [];
    dirs := existing;
    var k := 0;
    AccumulatedStart(segs, existing);
    while k < |segs|
      invariant k <= |segs|
      invariant Accumulated(segs, k, existing, acc, calls, dirs)
    {
      calls, dirs, acc := AccumulateNext(segs, k, existing, acc, calls, dirs);
      k := k + 1;
    }
    AccumulatedEnd(dir, existing, acc, calls, dirs);
  }

  /** One iteration of CreateDirectories: extend the accumulated path by the
      next segment and mkdir it when the segment is non-empty and the path
      does not exist yet. */
  method AccumulateNext(segs: seq<string>, k: nat, existing: set<string>,
                        acc: string, calls: seq<string>, dirs: set<string>)
    returns (calls': seq<string>, dirs': set<string>, next: string)
    requires k < |segs|
    requires forall i :: 0 <= i < |segs| ==> Separator !in segs[i]
    requires Accumulated(segs, k, existing, acc, calls, dirs)
    ensures Accumulated(segs, k + 1, existing, next, calls', dirs')
  {
    next := if k == 0 then segs[0] else acc + [Separator] + segs[k];
    var create := segs[k] != "" && next !in dirs;
    calls' := if create then calls + [next] else calls;
    dirs' := if create then dirs + {next} else dirs;
    AccumulateStep(segs, k, existing, acc, calls, dirs, next, calls', dirs');
  }

  /** Before the first segment nothing is accumulated. */
  lemma AccumulatedStart(segs: seq<string>, existing: set<string>)
    ensures Accumulated(segs, 0, existing, "", [], existing)
  {
    assert segs[..0] == [];
    assert Cumulative(segs[..0]) == [];
    assert Elems<string>([]) == {};
  }

  /** After the last segment the calls and directories are those of the whole chain. */
  lemma AccumulatedEnd(dir: string, existing: set<string>, acc: string,
                       calls: seq<string>, dirs: set<string>)
    requires Accumulated(Split(dir), |Split(dir)|, existing, acc, calls, dirs)
    ensures calls == MkdirCalls(dir, existing)
    ensures dirs == existing + Elems(DirectoryChain(dir))
  {
    var segs := Split(dir);
    assert segs[..|segs|] == segs;
    assert DirectoryChain(dir) == Cumulative(segs);
  }

  /** The state of CreateDirectories after the first k segments: acc is their
      path, and calls and dirs account for every prefix met so far. */
  ghost predicate Accumulated(segs: seq<string>, k: nat, existing: set<string>,
                              acc: string, calls: seq<string>, dirs: set<string>)
  {
    && k <= |segs|
    && (k > 0 ==> acc == Join(segs[..k]))
    && calls == Missing(Cumulative(segs[..k]), existing)
    && dirs == existing + Elems(Cumulative(segs[..k]))
  }

  /** One iteration of CreateDirectories keeps Accumulated. */
  lemma AccumulateStep(segs: seq<string>, k: nat, existing: set<string>,
                       acc: string, calls: seq<string>, dirs: set<string>,
                       next: string, calls': seq<string>, dirs': set<string>)
    requires k < |segs|
    requires forall i :: 0 <= i < |segs| ==> Separator !in segs[i]
    requires Accumulated(segs, k, existing, acc, calls, dirs)
    requires next == if k == 0 then segs[0] else acc + [Separator] + segs[k]
    requires calls' == if segs[k] != "" && next !in dirs then calls + [next] else calls
    requires dirs' == if segs[k] != "" && next !in dirs then dirs + {next} else dirs
    ensures Accumulated(segs, k + 1, existing, next, calls', dirs')
  {
    var c := Cumulative(segs[..k]);
    ChainStep(segs, k, existing);
    assert next == Join(segs[..k + 1]);
    if segs[k] == "" {
      assert Cumulative(segs[..k + 1]) == c;
    } else {
      assert Cumulative(segs[..k + 1]) == c + [next];
      assert next in Elems(c) <==> next in c;
      ExtendChain(next, existing, Missing(c, existing), Elems(c),
                  Missing(c + [next], existing), Elems(c + [next]), calls, dirs, calls', dirs');
    }
  }

  /** Appending a new prefix to the chain: it is created exactly when it does
      not exist yet. Here made and known stand for the mkdir calls and the
      directories of the chain so far, made' and known' for the longer chain. */
  lemma ExtendChain(next: string, existing: set<string>, made: seq<string>, known: set<string>,
                    made': seq<string>, known': set<string>,
                    calls: seq<string>, dirs: set<string>, calls': seq<string>, dirs': set<string>)
    requires calls == made && dirs == existing + known && next !in known
    requires made' == made + (if next in existing then [] else [next])
    requires known' == known + {next}
    requires calls' == if next !in dirs then calls + [next] else calls
    requires dirs' == if next !in dirs then dirs + {next} else dirs
    ensures calls' == made' && dirs' == existing + known'
  {
    if next in existing {
      assert calls + [] == calls;
    }
  }

  /** One step of the accumulation: the next prefix extends the previous one
      and is new to the chain built so far. */
  lemma ChainStep(segs: seq<string>, k: nat, existing: set<string>)
    requires k < |segs|
    requires forall i :: 0 <= i < |segs| ==> Separator !in segs[i]
    ensures Join(segs[..k + 1]) ==
              if k == 0 then segs[0] else Join(segs[..k]) + [Separator] + segs[k]
    ensures var c := Cumulative(segs[..k]);
            var next := Join(segs[..k + 1]);
            segs[k] != "" ==>
              && Cumulative(segs[..k + 1]) == c + [next]
              && next !in c
              && Missing(c + [next], existing) == Missing(c, existing) + (if next in existing then [] else [next])
              && Elems(c + [next]) == Elems(c) + {next}
    ensures segs[k] == "" ==> Cumulative(segs[..k + 1]) == Cumulative(segs[..k])
  {
    var prefix := segs[..k + 1];
    assert prefix[..k] == segs[..k];
    var c := Cumulative(segs[..k]);
    var next := Join(prefix);
    if segs[k] != "" {
      if k > 0 {
        NextIsNew(segs, k);
      }
      MissingSnoc(c, next, existing);
      ElemsSnoc(c, next);
    }
  }

  /** A non-empty segment after the first gives a prefix longer than, hence
      different from, every prefix of the chain so far. */
  lemma NextIsNew(segs: seq<string>, k: nat)
    requires 0 < k < |segs| && segs[k] != ""
    requires forall i :: 0 <= i < |segs| ==> Separator !in segs[i]
    ensures Join(segs[..k + 1]) !in Cumulative(segs[..k])
  {
    var c := Cumulative(segs[..k]);
    var prefix := segs[..k + 1];
    assert prefix[..k] == segs[..k];
    var next := Join(prefix);
    assert |next| > |Join(segs[..k])|;
    assert forall i :: 0 <= i < k ==> segs[..k][i] == segs[i];
    CumulativeShape(segs[..k]);
    assert ChainShape(c, Join(segs[..k]));
    forall m | 0 <= m < |c|
      ensures |c[m]| < |next|
    {
      assert EndsSegment(Join(segs[..k]), |c[m]|);
    }
  }

  /** Missing over a chain extended by one path. */
  lemma MissingSnoc(c: seq<string>, next: string, existing: set<string>)
    ensures Missing(c + [next], existing) == Missing(c, existing) + (if next in existing then [] else [next])
  {
    assert (c + [next])[..|c|] == c;
  }

  /** On a remote side with no directories, nothing is skipped. */
  lemma {:induction false} MissingNone(paths: seq<string>)
    ensures Missing(paths, {}) == paths
    decreases |paths|
  {
    if |paths| > 0 {
      var init := paths[..|paths| - 1];
      var p := paths[|paths| - 1];
      MissingNone(init);
      MissingSnoc(init, p, {});
      assert init + [p] == paths;
    }
  }

  /** Elems over a chain extended by one path. */
  lemma ElemsSnoc(c: seq<string>, next: string)
    ensures Elems(c + [next]) == Elems(c) + {next}
  {
  }
}
