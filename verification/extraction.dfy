/** Extracting an archive below a fresh container directory. An archive is its list of members. */
module Extraction {
  import opened Text
  import opened Paths
  import opened FileTree

  datatype Member = Member(filename: string, content: string)

  /** What the loop does with a member: nothing for a folder, raise for a path that leaves the container. */
  datatype Plan = Skip | Reject | Put(path: Path)

  datatype Step = Step(plan: Plan, content: string)

  /** The tree when the extraction returned, or when it raised. */
  datatype Extracted = Extracted(tree: Tree, ok: bool)

  predicate IsFolder(m: Member) {
    m.filename != "" && m.filename[|m.filename| - 1] == '/'
  }

  function ZipRoots(members: seq<Member>): set<string> {
    set m | m in members && AllParts(ParsePath(m.filename)) != [] :: AllParts(ParsePath(m.filename))[0]
  }

  /** The member's path inside the container; a single root is dropped. */
  function InnerPath(strip: bool, m: Member): PurePath {
    var written := ParsePath(m.filename);
    if !strip then written
    else if AllParts(written) == [] then PurePath("", [])
    else DropFirst(written)
  }

  function PlanOf(container: Path, strip: bool, m: Member): Plan {
    if IsFolder(m) then Skip
    else
      match SafeUserPath(container, InnerPath(strip, m))
      case None => Reject
      case Some(p) => Put(p)
  }

  function Steps(container: Path, strip: bool, members: seq<Member>): seq<Step> {
    seq(|members|, i requires 0 <= i < |members| => Step(PlanOf(container, strip, members[i]), members[i].content))
  }

  function RunStep(t: Tree, s: Step): Extracted {
    match s.plan
    case Skip => Extracted(t, true)
    case Reject => Extracted(t, false)
    case Put(p) =>
      match MakeDirs(t, Parent(p))
      case None => Extracted(t, false)
      case Some(t1) =>
        match WriteFile(t1, p, s.content)
        case None => Extracted(t1, false)
        case Some(t2) => Extracted(t2, true)
  }

  /** The loop over the members, which stops where one raises. */
  function RunSteps(t: Tree, steps: seq<Step>): Extracted {
    if steps == [] then Extracted(t, true)
    else
      var before := RunSteps(t, steps[..|steps| - 1]);
      if !before.ok then before else RunStep(before.tree, steps[|steps| - 1])
  }

  /* ---- what the archive describes ---- */

  /** The content each target path ends up with. */
  function FinalFiles(steps: seq<Step>): map<Path, string> {
    if steps == [] then map[]
    else
      var s := steps[|steps| - 1];
      var before := FinalFiles(steps[..|steps| - 1]);
      if s.plan.Put? then before[s.plan.path := s.content] else before
  }

  /** The archive can be laid out: no member leaves the container or is the container itself, and no file of the
      archive would have to be a directory of another one. */
  ghost predicate Extractable(container: Path, steps: seq<Step>) {
    && (forall s | s in steps :: s.plan != Reject && s.plan != Put(container))
    && PrefixFree(FinalFiles(steps))
  }

  ghost predicate PrefixFree(files: map<Path, string>) {
    forall p, q | p in files && q in files && p <= q :: p == q
  }

  /** Some file lies at or below `p`. */
  ghost predicate Needed(files: map<Path, string>, p: Path) {
    exists q :: q in files && p <= q
  }

  /** Below the container the tree holds these files, the directories they need, and nothing else. */
  ghost predicate LaidOut(t: Tree, container: Path, files: map<Path, string>) {
    && (forall p | container <= p :: p in t <==> p == container || Needed(files, p))
    && (forall p | container <= p :: IsFile(t, p) <==> p in files)
    && (forall p | p in files :: container <= p && p in t && t[p] == File(files[p]))
  }

  /** The last member for a path decides its content. */
  lemma {:induction false} LastMemberWins(steps: seq<Step>, p: Path)
    ensures p in FinalFiles(steps) <==> exists i :: 0 <= i < |steps| && steps[i].plan == Put(p)
    ensures forall i | 0 <= i < |steps| && steps[i].plan == Put(p)
                       && (forall j | i < j < |steps| :: steps[j].plan != Put(p)) ::
              p in FinalFiles(steps) && FinalFiles(steps)[p] == steps[i].content
  {
    if steps != [] {
      var n := |steps| - 1;
      LastMemberWins(steps[..n], p);
      assert forall i | 0 <= i < n :: steps[..n][i] == steps[i];
    }
  }

  ghost predicate StepsBelow(container: Path, steps: seq<Step>) {
    forall s | s in steps && s.plan.Put? :: container <= s.plan.path && ValidNames(s.plan.path)
  }

  lemma StepsStayBelow(container: Path, strip: bool, members: seq<Member>)
    requires ValidNames(container)
    ensures StepsBelow(container, Steps(container, strip, members))
  {
    forall m | m in members && PlanOf(container, strip, m).Put?
      ensures container <= PlanOf(container, strip, m).path && ValidNames(PlanOf(container, strip, m).path)
    {
      ResolveKeepsValidNames(container, InnerPath(strip, m).parts);
    }
  }

  /* ---- one step ---- */

  /** The state between two steps: the container is there and everything else is as before. */
  ghost predicate Framed(t0: Tree, t: Tree, container: Path) {
    WellFormed(t) && IsDir(t, container) && SameOutside(t0, t, container)
  }

  /** A step below the container keeps the frame, whether it returns or raises. */
  lemma StepKeepsFrame(t0: Tree, t: Tree, container: Path, s: Step)
    requires Framed(t0, t, container) && container != []
    requires s.plan.Put? ==> container <= s.plan.path && ValidNames(s.plan.path)
    ensures Framed(t0, RunStep(t, s).tree, container)
  {
    if s.plan.Put? {
      var p := s.plan.path;
      ParentIsPrefix(p, p);
      if MakeDirs(t, Parent(p)).Some? {
        var t1 := MakeDirs(t, Parent(p)).value;
        MakeDirsAddsAncestors(t, Parent(p));
        forall q | !(container <= q) && q <= Parent(p) ensures q in t {
          assert q <= container;
          if q != container { AncestorsAreDirs(t, container, q); }
        }
        assert SameOutside(t, t1, container);
        if WriteFile(t1, p, s.content).Some? {
          WriteFileKeepsTree(t1, p, s.content);
        }
      }
    }
  }

  /** A file of the archive lies above the new one. */
  lemma FileAboveBlocks(t: Tree, container: Path, files: map<Path, string>, s: Step, q: Path)
    requires LaidOut(t, container, files) && s.plan.Put? && q in files && q <= s.plan.path && q != s.plan.path
    ensures !RunStep(t, s).ok && !PrefixFree(files[s.plan.path := s.content])
  {
    var p := s.plan.path;
    ParentIsPrefix(q, p);
    assert IsFile(t, q) && q in Prefixes(Parent(p));
    assert MakeDirs(t, Parent(p)).None?;
    var files' := files[p := s.content];
    assert q in files' && p in files' && q <= p && q != p;
  }

  /** A file of the archive lies below the new one. */
  lemma FileBelowBlocks(t: Tree, container: Path, files: map<Path, string>, s: Step, q: Path)
    requires WellFormed(t) && LaidOut(t, container, files) && s.plan.Put? && q in files && s.plan.path <= q && q != s.plan.path
    ensures !RunStep(t, s).ok && !PrefixFree(files[s.plan.path := s.content])
  {
    var p := s.plan.path;
    AncestorsAreDirs(t, q, p);
    FolderBlocks(t, s);
    var files' := files[p := s.content];
    assert q in files' && p in files' && p <= q && q != p;
  }

  lemma FolderBlocks(t: Tree, s: Step)
    requires s.plan.Put? && IsDir(t, s.plan.path)
    ensures !RunStep(t, s).ok
  {
    var p := s.plan.path;
    if MakeDirs(t, Parent(p)).Some? {
      MakeDirsContents(t, Parent(p));
    }
  }

  /** A step on a tree laid out so far succeeds exactly when its file fits, and then the tree is laid out with it. */
  lemma StepLaysOut(t: Tree, container: Path, files: map<Path, string>, s: Step)
    requires WellFormed(t) && IsDir(t, container) && container != [] && LaidOut(t, container, files) && PrefixFree(files)
    requires s.plan.Put? && container <= s.plan.path && ValidNames(s.plan.path)
    ensures var files' := files[s.plan.path := s.content];
            && (RunStep(t, s).ok <==> s.plan.path != container && PrefixFree(files'))
            && (RunStep(t, s).ok ==> LaidOut(RunStep(t, s).tree, container, files'))
  {
    var p := s.plan.path;
    if p == container {
      FolderBlocks(t, s);
    } else if q :| q in files && q <= p && q != p {
      FileAboveBlocks(t, container, files, s, q);
    } else if q :| q in files && p <= q && q != p {
      FileBelowBlocks(t, container, files, s, q);
    } else {
      FittingStepLaysOut(t, container, files, s);
    }
  }

  /** A file that fits is written, after the directories it needs. */
  lemma FittingStepRuns(t: Tree, container: Path, files: map<Path, string>, s: Step)
    requires WellFormed(t) && IsDir(t, container) && container != [] && LaidOut(t, container, files)
    requires s.plan.Put? && container <= s.plan.path && s.plan.path != container
    requires forall q | q in files && (q <= s.plan.path || s.plan.path <= q) :: q == s.plan.path
    ensures var p := s.plan.path;
            && MakeDirs(t, Parent(p)).Some? && container <= Parent(p)
            && RunStep(t, s) == Extracted(MakeDirs(t, Parent(p)).value[p := File(s.content)], true)
  {
    var p := s.plan.path;
    ParentIsPrefix(container, p);
    forall q | q <= Parent(p) ensures !IsFile(t, q) {
      assert q <= p && q != p;
      if !(container <= q) {
        AncestorsAreDirs(t, container, q);
      }
    }
    MakeDirsContents(t, Parent(p));
    if p in t { assert Needed(files, p); }
  }

  lemma FittingStepLaysOut(t: Tree, container: Path, files: map<Path, string>, s: Step)
    requires WellFormed(t) && IsDir(t, container) && container != [] && LaidOut(t, container, files) && PrefixFree(files)
    requires s.plan.Put? && container <= s.plan.path && s.plan.path != container
    requires forall q | q in files && (q <= s.plan.path || s.plan.path <= q) :: q == s.plan.path
    ensures PrefixFree(files[s.plan.path := s.content])
    ensures RunStep(t, s).ok && LaidOut(RunStep(t, s).tree, container, files[s.plan.path := s.content])
  {
    var p := s.plan.path;
    var files' := files[p := s.content];
    FittingStepRuns(t, container, files, s);
    MakeDirsContents(t, Parent(p));
    var t2 := RunStep(t, s).tree;
    forall q | container <= q
      ensures q in t2 <==> q == container || Needed(files', q)
      ensures IsFile(t2, q) <==> q in files'
    {
      NeededWith(files, p, s.content, q);
      if q <= p && q != p { ParentIsPrefix(q, p); }
    }
  }

  lemma NeededWith(files: map<Path, string>, p: Path, content: string, q: Path)
    ensures Needed(files[p := content], q) <==> Needed(files, q) || q <= p
  {
    var files' := files[p := content];
    assert p in files';
    if r :| r in files && q <= r {
      assert r in files';
    }
  }

  /* ---- the whole loop ---- */

  lemma {:induction false} LoopKeepsFrame(t0: Tree, container: Path, steps: seq<Step>)
    requires WellFormed(t0) && IsDir(t0, container) && container != [] && StepsBelow(container, steps)
    ensures Framed(t0, RunSteps(t0, steps).tree, container)
  {
    if steps != [] {
      LoopKeepsFrame(t0, container, steps[..|steps| - 1]);
      StepKeepsFrame(t0, RunSteps(t0, steps[..|steps| - 1]).tree, container, steps[|steps| - 1]);
    }
  }

  /** On an empty container the loop succeeds exactly for the archives that can be laid out, and lays them out. */
  lemma {:induction false} LoopLaysOut(t0: Tree, container: Path, steps: seq<Step>)
    requires WellFormed(t0) && IsDir(t0, container) && container != [] && StepsBelow(container, steps)
    requires forall p | p in t0 && container <= p :: p == container
    ensures RunSteps(t0, steps).ok <==> Extractable(container, steps)
    ensures RunSteps(t0, steps).ok ==> LaidOut(RunSteps(t0, steps).tree, container, FinalFiles(steps))
  {
    if steps != [] {
      var n := |steps| - 1;
      var front, s := steps[..n], steps[n];
      LoopLaysOut(t0, container, front);
      LoopKeepsFrame(t0, container, front);
      assert steps == front + [s];
      if RunSteps(t0, front).ok {
        if s.plan.Put? {
          StepLaysOut(RunSteps(t0, front).tree, container, FinalFiles(front), s);
        }
      } else if PrefixFree(FinalFiles(steps)) {
        FrontIsPrefixFree(steps);
      }
    }
  }

  lemma FrontIsPrefixFree(steps: seq<Step>)
    requires steps != [] && PrefixFree(FinalFiles(steps))
    ensures PrefixFree(FinalFiles(steps[..|steps| - 1]))
  {
    var before := FinalFiles(steps[..|steps| - 1]);
    assert forall p | p in before :: p in FinalFiles(steps);
  }
}
