/** The working directory of a Linux process, kept as a joined string without its leading
    slash and split again on every change, and the search for a free descriptor. */
module WorkingDirectory {
  import opened Segments

  const SLASH := '/'

  /** One path segment applied to the directories above it. */
  function Enter(stack: seq<string>, seg: string): (r: seq<string>) {
    if seg == ".." then (if stack == [] then [] else stack[..|stack| - 1])
    else if seg == "." || seg == "" then stack
    else stack + [seg]
  }

  function Walk(stack: seq<string>, segs: seq<string>): (r: seq<string>)
    decreases |segs|
  {
    if segs == [] then stack else Walk(Enter(stack, segs[0]), segs[1..])
  }

  function NonEmpty(segs: seq<string>): (r: seq<string>) {
    if segs == [] then [] else (if segs[0] == "" then [] else [segs[0]]) + NonEmpty(segs[1..])
  }

  /** The directories a stored string stands for. */
  function StackOf(cwd: string): (r: seq<string>) {
    NonEmpty(Split(cwd, SLASH))
  }

  function Changed(cwd: string, path: string): (r: string) {
    if path == "" then cwd
    else Join(Walk(StackOf(if path[0] == SLASH then "" else cwd), Split(path, SLASH)), SLASH)
  }

  // ----- stacks of proper segments

  predicate Plain(seg: string) {
    seg != "" && SLASH !in seg
  }

  predicate Proper(seg: string) {
    Plain(seg) && seg != "." && seg != ".."
  }

  ghost predicate AllPlain(segs: seq<string>) {
    forall i :: 0 <= i < |segs| ==> Plain(segs[i])
  }

  ghost predicate AllProper(segs: seq<string>) {
    forall i :: 0 <= i < |segs| ==> Proper(segs[i])
  }

  lemma {:induction false} NonEmptyPlain(segs: seq<string>)
    requires forall i :: 0 <= i < |segs| ==> SLASH !in segs[i]
    ensures AllPlain(NonEmpty(segs))
  {
    if segs != [] {
      NonEmptyPlain(segs[1..]);
    }
  }

  lemma {:induction false} NonEmptySame(segs: seq<string>)
    requires AllPlain(segs)
    ensures NonEmpty(segs) == segs
  {
    if segs != [] {
      assert Plain(segs[0]);
      NonEmptySame(segs[1..]);
    }
  }

  lemma StackPlain(cwd: string)
    ensures AllPlain(StackOf(cwd))
  {
    SplitParts(cwd, SLASH);
    NonEmptyPlain(Split(cwd, SLASH));
  }

  /** Splitting a stored string recovers exactly the segments that were joined. */
  lemma StackOfJoin(stack: seq<string>)
    requires AllPlain(stack)
    ensures StackOf(Join(stack, SLASH)) == stack
  {
    if stack == [] {
      assert Split("", SLASH) == [""];
      assert NonEmpty([""]) == [];
    } else {
      SplitJoin(stack, SLASH);
      NonEmptySame(stack);
    }
  }

  lemma {:induction false} WalkPlain(stack: seq<string>, segs: seq<string>)
    requires forall i :: 0 <= i < |segs| ==> SLASH !in segs[i]
    ensures AllPlain(stack) ==> AllPlain(Walk(stack, segs))
    ensures AllProper(stack) ==> AllProper(Walk(stack, segs))
    decreases |segs|
  {
    if segs != [] {
      WalkPlain(Enter(stack, segs[0]), segs[1..]);
    }
  }

  lemma {:induction false} WalkConcat(stack: seq<string>, a: seq<string>, b: seq<string>)
    ensures Walk(stack, a + b) == Walk(Walk(stack, a), b)
    decreases |a|
  {
    if a == [] {
      assert a + b == b;
    } else {
      assert (a + b)[1..] == a[1..] + b;
      WalkConcat(Enter(stack, a[0]), a[1..], b);
    }
  }

  lemma {:induction false} WalkProper(stack: seq<string>, segs: seq<string>)
    requires AllProper(segs)
    ensures Walk(stack, segs) == stack + segs
    decreases |segs|
  {
    if segs != [] {
      assert Proper(segs[0]);
      WalkProper(Enter(stack, segs[0]), segs[1..]);
    }
  }

  // ----- the meaning of "..", defined independently of the stack

  /** Read the segments from the last to the first: each ".." cancels the nearest name before
      it that is not yet cancelled, and at the root it cancels nothing. */
  function Resolve(segs: seq<string>, cancel: nat): (r: seq<string>)
    decreases |segs|
  {
    if segs == [] then [] else
      var init, last := segs[..|segs| - 1], segs[|segs| - 1];
      if last == "." || last == "" then Resolve(init, cancel)
      else if last == ".." then Resolve(init, cancel + 1)
      else if cancel > 0 then Resolve(init, cancel - 1)
      else Resolve(init, 0) + [last]
  }

  function DropLast(stack: seq<string>, n: nat): (r: seq<string>) {
    if n >= |stack| then [] else stack[..|stack| - n]
  }

  lemma {:induction false} WalkResolves(segs: seq<string>, cancel: nat)
    ensures DropLast(Walk([], segs), cancel) == Resolve(segs, cancel)
    decreases |segs|
  {
    if segs != [] {
      var init, last := segs[..|segs| - 1], segs[|segs| - 1];
      assert segs == init + [last];
      WalkConcat([], init, [last]);
      var stack := Walk([], init);
      assert [last][1..] == [];
      assert Walk(stack, [last]) == Enter(stack, last);
      WalkResolves(init, cancel);
      WalkResolves(init, cancel + 1);
      WalkResolves(init, if cancel > 0 then cancel - 1 else 0);
    }
  }

  // ----- what a change of directory promises

  /** The stored string is in normal form: no empty, "." or ".." segment, and joining its
      segments gives it back. */
  ghost predicate Normal(cwd: string) {
    AllProper(StackOf(cwd)) && Join(StackOf(cwd), SLASH) == cwd
  }

  lemma ChangedStack(cwd: string, path: string)
    requires path != ""
    ensures StackOf(Changed(cwd, path))
         == Walk(StackOf(if path[0] == SLASH then "" else cwd), Split(path, SLASH))
  {
    var start := if path[0] == SLASH then "" else cwd;
    StackPlain(start);
    SplitParts(path, SLASH);
    WalkPlain(StackOf(start), Split(path, SLASH));
    StackOfJoin(Walk(StackOf(start), Split(path, SLASH)));
  }

  lemma RootStack()
    ensures StackOf("") == [] && Normal("")
  {
    StackOfJoin([]);
  }

  /** Every change keeps the normal form. */
  lemma ChangedNormal(cwd: string, path: string)
    requires Normal(cwd)
    ensures Normal(Changed(cwd, path))
  {
    if path != "" {
      RootStack();
      ChangedStack(cwd, path);
      SplitParts(path, SLASH);
      WalkPlain(StackOf(if path[0] == SLASH then "" else cwd), Split(path, SLASH));
    }
  }

  predicate Absolute(path: string) {
    path != "" && path[0] == SLASH
  }

  /** The new directory is the old one and the path, read as one list of segments in which
      each ".." cancels the name before it.  The empty path leads nowhere else. */
  lemma ChangedResolves(cwd: string, path: string)
    requires Normal(cwd)
    ensures StackOf(Changed(cwd, path))
         == Resolve((if Absolute(path) then [] else StackOf(cwd)) + Split(path, SLASH), 0)
    ensures path == "" ==> Changed(cwd, path) == cwd
  {
    var above := if Absolute(path) then [] else StackOf(cwd);
    RootStack();
    WalkProper([], above);
    assert [] + above == above;
    WalkConcat([], above, Split(path, SLASH));
    WalkResolves(above + Split(path, SLASH), 0);
    var walked := Walk([], above + Split(path, SLASH));
    assert DropLast(walked, 0) == walked;
    if path == "" {
      assert Split("", SLASH) == [""] && [""][1..] == [];
      assert Walk(above, [""]) == above;
    } else {
      ChangedStack(cwd, path);
    }
  }

  /** Two changes in a row are one change by the concatenated path. */
  lemma ChangesCompose(cwd: string, p: string, q: string)
    requires p != "" && q != "" && q[0] != SLASH
    ensures Changed(Changed(cwd, p), q) == Changed(cwd, p + [SLASH] + q)
  {
    var start := StackOf(if p[0] == SLASH then "" else cwd);
    var pq := p + [SLASH] + q;
    assert pq[0] == p[0];
    ChangedStack(cwd, p);
    SplitConcat(p, q, SLASH);
    WalkConcat(start, Split(p, SLASH), Split(q, SLASH));
  }

  /** The reported directory leads back to itself from anywhere. */
  lemma ReportedPathReturns(cwd: string, elsewhere: string)
    requires Normal(cwd)
    ensures Changed(elsewhere, [SLASH] + cwd) == cwd
  {
    var path := [SLASH] + cwd;
    RootStack();
    SplitConcat("", cwd, SLASH);
    assert [] + [SLASH] + cwd == path;
    assert Split("", SLASH) == [""];
    WalkConcat([], [""], Split(cwd, SLASH));
    assert [""][1..] == [];
    assert Walk([], [""]) == [];
    WalkSkipsEmpty([], Split(cwd, SLASH));
    WalkProper([], StackOf(cwd));
    assert [] + StackOf(cwd) == StackOf(cwd);
  }

  lemma {:induction false} WalkSkipsEmpty(stack: seq<string>, segs: seq<string>)
    ensures Walk(stack, segs) == Walk(stack, NonEmpty(segs))
    decreases |segs|
  {
    if segs != [] {
      WalkSkipsEmpty(Enter(stack, segs[0]), segs[1..]);
      if segs[0] == "" {
        assert NonEmpty(segs) == NonEmpty(segs[1..]);
      } else {
        assert NonEmpty(segs)[1..] == NonEmpty(segs[1..]);
      }
    }
  }

  // ----- the process

  class LinuxProcess<File> {
    var currentWorkingDirectory: string
    var files: map<nat, File>

    constructor (files: map<nat, File>)
      ensures currentWorkingDirectory == "" && Normal(currentWorkingDirectory) && this.files == files
    {
      currentWorkingDirectory := "";
      this.files := files;
      new;
      RootStack();
    }

    method ChangeDirectory(path: string)
      requires Normal(currentWorkingDirectory)
      modifies this`currentWorkingDirectory
      ensures Normal(currentWorkingDirectory)
      ensures currentWorkingDirectory == Changed(old(currentWorkingDirectory), path)
    {
      ChangedNormal(currentWorkingDirectory, path);
      if path == "" {
        return;
      }
      var cwd := if path[0] == SLASH then "" else currentWorkingDirectory;
      var stack := StackOf(cwd);
      var segs := Split(path, SLASH);
      for i := 0 to |segs|
        invariant Walk(stack, segs[i..]) == Walk(StackOf(cwd), segs)
      {
        assert segs[i..][1..] == segs[i + 1..];
        if segs[i] == ".." {
          stack := if stack == [] then [] else stack[..|stack| - 1];
        } else if segs[i] == "." || segs[i] == "" {
        } else {
          stack := stack + [segs[i]];
        }
      }
      currentWorkingDirectory := Join(stack, SLASH);
    }

    /** The lowest free descriptor at or above `start`. */
    method GetFreeFdFrom(start: nat) returns (fd: nat)
      ensures fd >= start && fd !in files
      ensures forall k :: start <= k < fd ==> k in files
    {
      fd := start;
      while fd in files
        invariant fd >= start
        invariant forall k :: start <= k < fd ==> k in files
        decreases |Above(files.Keys, fd)|
      {
        assert Above(files.Keys, fd) == Above(files.Keys, fd + 1) + {fd};
        fd := fd + 1;
      }
    }
  }

  function Above(keys: set<nat>, low: nat): set<nat> {
    set k | k in keys && k >= low
  }
}
