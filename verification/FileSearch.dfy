/**
  The recursive directory walker `FileSearcher.Search` with its cancellable
  `FileFound` event.

  The file system is an in-memory tree: each directory carries its file
  listing, its subdirectory listing (both in the order the listing returns
  them) and whether listing its files or its subdirectories throws.
  The subscriber of `FileFound` is a pure function of the file path that
  either lets the search go on, sets `Cancel`, or throws.

  Everything the walk does that can be observed is recorded as an event:
  one `Found` per raised `FileFound`, and the two console messages of
  `Search` (cancellation, and the error caught for a directory).
*/
module FileSearch {

  import opened Wrappers

  datatype Dir = Dir(
    path: string,
    files: seq<string>,
    subdirs: seq<Dir>,
    filesFail: bool,   // listing the files of this directory throws
    dirsFail: bool)    // listing the subdirectories of this directory throws

  /** What the `FileFound` subscriber does with one file. */
  datatype Reaction = Proceed | Cancel | Throws

  /** The `FileFound` event: one subscriber or none. */
  type Handler = Option<string -> Reaction>

  datatype Event =
    | Found(file: string)     // FileFound raised for this path
    | CancelNotice            // "search cancelled by the event handler"
    | Failure(dir: string)    // an exception was caught while walking this directory

  /** What raising `FileFound` for `file` does; with no subscriber nothing happens. */
  function React(h: Handler, file: string): Reaction
  {
    match h
    case None => Proceed
    case Some(g) => g(file)
  }

  /** One `Found` event per path, in order. */
  function Announce(fs: seq<string>): (r: seq<Event>)
    ensures |r| == |fs|
    ensures forall i :: 0 <= i < |fs| ==> r[i] == Found(fs[i])
  {
    seq(|fs|, i requires 0 <= i < |fs| => Found(fs[i]))
  }

  lemma AnnounceSnoc(fs: seq<string>, i: int)
    requires 0 <= i < |fs|
    ensures Announce(fs[..i]) + [Found(fs[i])] == Announce(fs[..i + 1])
  {
  }

  lemma AppendAssoc(a: seq<Event>, b: seq<Event>, c: seq<Event>)
    ensures (a + b) + c == a + (b + c)
  {
  }

  /** The file paths reported to the handler, in the order they were reported. */
  function Reported(evs: seq<Event>): seq<string>
  {
    if evs == [] then []
    else Reported(evs[..|evs| - 1]) + (if evs[|evs| - 1].Found? then [evs[|evs| - 1].file] else [])
  }

  /** Index of the first file whose handler does not let the loop go on, or `|fs|`. */
  function StopAt(fs: seq<string>, h: Handler): (k: nat)
    ensures k <= |fs|
    ensures forall j :: 0 <= j < k ==> React(h, fs[j]) == Proceed
    ensures k < |fs| ==> React(h, fs[k]) != Proceed
  {
    if fs == [] then 0
    else if React(h, fs[0]) != Proceed then 0
    else 1 + StopAt(fs[1..], h)
  }

  /**
    The events of the file loop of one `Search` invocation: a `Found` per
    file up to the first one whose handler cancels or throws, then the
    matching message; or a `Found` for every file.
  */
  function FileEvents(d: Dir, h: Handler): seq<Event>
  {
    var k := StopAt(d.files, h);
    if k < |d.files| then
      Announce(d.files[..k + 1])
      + [if React(h, d.files[k]) == Cancel then CancelNotice else Failure(d.path)]
    else Announce(d.files)
  }

  /**
    The events of one `Search(d.path)` invocation, including everything its
    recursive calls do. A cancel or an exception ends this invocation only.
  */
  function Walk(d: Dir, h: Handler): seq<Event>
    decreases d
  {
    if d.filesFail then [Failure(d.path)]
    else if StopAt(d.files, h) < |d.files| then FileEvents(d, h)
    else if d.dirsFail then FileEvents(d, h) + [Failure(d.path)]
    else FileEvents(d, h) + WalkAll(d.subdirs, h)
  }

  /** The events of `Search` on each directory of `ds`, one after another. */
  function WalkAll(ds: seq<Dir>, h: Handler): seq<Event>
    decreases ds
  {
    if ds == [] then []
    else WalkAll(ds[..|ds| - 1], h) + Walk(ds[|ds| - 1], h)
  }

  /** All files of the tree in pre-order: a directory's files, then each subdirectory in turn. */
  function PreOrder(d: Dir): seq<string>
    decreases d
  {
    d.files + PreOrderAll(d.subdirs)
  }

  function PreOrderAll(ds: seq<Dir>): seq<string>
    decreases ds
  {
    if ds == [] then []
    else PreOrderAll(ds[..|ds| - 1]) + PreOrder(ds[|ds| - 1])
  }

  /** No listing in the tree fails and the handler lets every file of it through. */
  ghost predicate Unhindered(d: Dir, h: Handler)
    decreases d
  {
    && !d.filesFail && !d.dirsFail
    && (forall j :: 0 <= j < |d.files| ==> React(h, d.files[j]) == Proceed)
    && (forall i :: 0 <= i < |d.subdirs| ==> Unhindered(d.subdirs[i], h))
  }

  // ---------------------------------------------------------------------
  // Helper facts about the event log
  // ---------------------------------------------------------------------

  lemma {:induction false} ReportedAppend(a: seq<Event>, b: seq<Event>)
    ensures Reported(a + b) == Reported(a) + Reported(b)
    decreases |b|
  {
    if b == [] {
      assert a + b == a;
    } else {
      var b' := b[..|b| - 1];
      assert (a + b)[..|a + b| - 1] == a + b';
      ReportedAppend(a, b');
    }
  }

  lemma {:induction false} ReportedAnnounce(fs: seq<string>)
    ensures Reported(Announce(fs)) == fs
    decreases |fs|
  {
    if fs != [] {
      var fs' := fs[..|fs| - 1];
      assert Announce(fs)[..|fs| - 1] == Announce(fs');
      ReportedAnnounce(fs');
    }
  }

  lemma ReportedNonFound(e: Event)
    requires !e.Found?
    ensures Reported([e]) == []
  {
    assert [e][..0] == [];
  }

  // ---------------------------------------------------------------------
  // Properties of the walk
  // ---------------------------------------------------------------------

  /**
    Splitting a subdirectory listing at any point: the walk of `ds[i]`
    sits between the walks of the earlier and of the later siblings,
    whatever those earlier walks did (cancel, fail or finish).
  */
  lemma {:induction false} WalkAllAppend(a: seq<Dir>, b: seq<Dir>, h: Handler)
    ensures WalkAll(a + b, h) == WalkAll(a, h) + WalkAll(b, h)
    decreases |b|
  {
    if b == [] {
      assert a + b == a;
    } else {
      var b' := b[..|b| - 1];
      assert (a + b)[..|a + b| - 1] == a + b';
      assert (a + b)[|a + b| - 1] == b[|b| - 1];
      WalkAllAppend(a, b', h);
      AppendAssoc(WalkAll(a, h), WalkAll(b', h), Walk(b[|b| - 1], h));
    }
  }

  lemma {:induction false} SiblingsAreIndependent(ds: seq<Dir>, i: int, h: Handler)
    requires 0 <= i < |ds|
    ensures WalkAll(ds, h) == WalkAll(ds[..i], h) + Walk(ds[i], h) + WalkAll(ds[i + 1..], h)
  {
    var before, after := ds[..i], ds[i + 1..];
    assert ds == (before + [ds[i]]) + after;
    WalkAllAppend(before + [ds[i]], after, h);
    assert (before + [ds[i]])[..i] == before;
    assert WalkAll(before + [ds[i]], h) == WalkAll(before, h) + Walk(ds[i], h);
  }

  lemma WalkAllSnoc(ds: seq<Dir>, j: int, h: Handler)
    requires 0 <= j < |ds|
    ensures WalkAll(ds[..j + 1], h) == WalkAll(ds[..j], h) + Walk(ds[j], h)
  {
    assert ds[..j + 1][..j] == ds[..j];
  }

  /**
    What one invocation reports of its own directory: nothing when the file
    listing fails; the files up to and including the one whose handler
    cancelled or threw, and nothing from any subdirectory; all its files
    when the subdirectory listing fails; otherwise all its files followed by
    what the subdirectories report.
  */
  lemma {:induction false} ReportedByOneDirectory(d: Dir, h: Handler)
    ensures d.filesFail ==> Reported(Walk(d, h)) == []
    ensures !d.filesFail && StopAt(d.files, h) < |d.files| ==>
      Reported(Walk(d, h)) == d.files[..StopAt(d.files, h) + 1]
    ensures !d.filesFail && StopAt(d.files, h) == |d.files| && d.dirsFail ==>
      Reported(Walk(d, h)) == d.files
    ensures !d.filesFail && StopAt(d.files, h) == |d.files| && !d.dirsFail ==>
      Reported(Walk(d, h)) == d.files + Reported(WalkAll(d.subdirs, h))
  {
    if d.filesFail {
      assert Walk(d, h) == [Failure(d.path)];
      ReportedNonFound(Failure(d.path));
    } else {
      var k := StopAt(d.files, h);
      if k < |d.files| {
        var last := if React(h, d.files[k]) == Cancel then CancelNotice else Failure(d.path);
        assert Walk(d, h) == Announce(d.files[..k + 1]) + [last];
        ReportedAppend(Announce(d.files[..k + 1]), [last]);
        ReportedAnnounce(d.files[..k + 1]);
        ReportedNonFound(last);
      } else {
        assert FileEvents(d, h) == Announce(d.files);
        ReportedAnnounce(d.files);
        if d.dirsFail {
          ReportedAppend(Announce(d.files), [Failure(d.path)]);
          ReportedNonFound(Failure(d.path));
        } else {
          ReportedAppend(Announce(d.files), WalkAll(d.subdirs, h));
        }
      }
    }
  }

  /**
    When nothing cancels and nothing throws (in particular, with no
    subscriber and readable listings), every file of the tree is reported
    exactly as often as it is listed, in pre-order.
  */
  lemma {:induction false} UnhinderedReportsPreOrder(d: Dir, h: Handler)
    requires Unhindered(d, h)
    ensures Reported(Walk(d, h)) == PreOrder(d)
    decreases d, 1
  {
    ReportedByOneDirectory(d, h);
    UnhinderedReportsPreOrderAll(d.subdirs, h);
  }

  lemma {:induction false} UnhinderedReportsPreOrderAll(ds: seq<Dir>, h: Handler)
    requires forall i :: 0 <= i < |ds| ==> Unhindered(ds[i], h)
    ensures Reported(WalkAll(ds, h)) == PreOrderAll(ds)
    decreases ds, 0
  {
    if ds != [] {
      var init := ds[..|ds| - 1];
      UnhinderedReportsPreOrderAll(init, h);
      UnhinderedReportsPreOrder(ds[|ds| - 1], h);
      ReportedAppend(WalkAll(init, h), Walk(ds[|ds| - 1], h));
    }
  }

  /**
    Whatever the handler and the listings do, only files of the tree are
    reported, and none more often than it occurs in the tree.
  */
  lemma {:induction false} ReportedWithinTree(d: Dir, h: Handler)
    ensures multiset(Reported(Walk(d, h))) <= multiset(PreOrder(d))
    decreases d, 1
  {
    ReportedByOneDirectory(d, h);
    if d.filesFail {
    } else if StopAt(d.files, h) < |d.files| {
      PrefixWithin(d.files, StopAt(d.files, h) + 1, PreOrderAll(d.subdirs));
    } else if d.dirsFail {
      PrefixWithin(d.files, |d.files|, PreOrderAll(d.subdirs));
    } else {
      ReportedWithinTreeAll(d.subdirs, h);
      AppendWithin(d.files, Reported(WalkAll(d.subdirs, h)), PreOrderAll(d.subdirs));
    }
  }

  lemma PrefixWithin(s: seq<string>, n: nat, rest: seq<string>)
    requires n <= |s|
    ensures multiset(s[..n]) <= multiset(s + rest)
  {
    assert s + rest == s[..n] + (s[n..] + rest);
  }

  lemma AppendWithin(s: seq<string>, sub: seq<string>, rest: seq<string>)
    requires multiset(sub) <= multiset(rest)
    ensures multiset(s + sub) <= multiset(s + rest)
  {
  }

  lemma {:induction false} ReportedWithinTreeAll(ds: seq<Dir>, h: Handler)
    ensures multiset(Reported(WalkAll(ds, h))) <= multiset(PreOrderAll(ds))
    decreases ds, 0
  {
    if ds != [] {
      var init := ds[..|ds| - 1];
      ReportedWithinTreeAll(init, h);
      ReportedWithinTree(ds[|ds| - 1], h);
      ReportedAppend(WalkAll(init, h), Walk(ds[|ds| - 1], h));
    }
  }

  /**
    Cancellation and failures do not propagate upwards: once a directory's
    own files are all through and its subdirectories are listed, the walk of
    each subdirectory appears in full in the parent's walk, between the walks
    of its earlier and of its later siblings, whatever those did.
  */
  lemma {:induction false} SubdirectoryWalkedInFull(p: Dir, i: int, h: Handler)
    requires !p.filesFail && !p.dirsFail && StopAt(p.files, h) == |p.files|
    requires 0 <= i < |p.subdirs|
    ensures Walk(p, h) ==
      Announce(p.files) + WalkAll(p.subdirs[..i], h) + Walk(p.subdirs[i], h) + WalkAll(p.subdirs[i + 1..], h)
  {
    assert FileEvents(p, h) == Announce(p.files);
    SiblingsAreIndependent(p.subdirs, i, h);
    var x, y, z := WalkAll(p.subdirs[..i], h), Walk(p.subdirs[i], h), WalkAll(p.subdirs[i + 1..], h);
    AppendAssoc(Announce(p.files), x + y, z);
    AppendAssoc(Announce(p.files), x, y);
  }

  /**
    The example tree: `root` holds the subdirectories `a` and `b`; `a` holds
    `a/important.log` and its own subdirectory `a/deep` holding
    `a/deep/c.txt`; `b` holds `b/x.txt`.
  */
  function ExampleRoot(): Dir
  {
    var deep := Dir("a/deep", ["a/deep/c.txt"], [], false, false);
    var a := Dir("a", ["a/important.log"], [deep], false, false);
    var b := Dir("b", ["b/x.txt"], [], false, false);
    Dir("root", [], [a, b], false, false)
  }

  /** The handler of the example: it cancels on `a/important.log` only. */
  function CancelOnImportant(): Handler
  {
    Some((f: string) => if f == "a/important.log" then Cancel else Proceed)
  }

  /**
    A cancel in one subdirectory does not stop the walk of its parent: the
    sibling `b` of the cancelled `a` is still walked, while `a/deep` is not.
  */
  lemma CancelIsLocalToOneDirectory()
    ensures Walk(ExampleRoot(), CancelOnImportant())
         == [Found("a/important.log"), CancelNotice, Found("b/x.txt")]
  {
  }

  /**
    The walk as written reports a file after the cancelling one: on the
    example tree, `b/x.txt` comes after `a/important.log` in pre-order and is
    still reported, whereas a search cancelled as a whole would stop at
    `a/important.log`.
  */
  lemma LocalCancelReportsLaterFiles()
    ensures PreOrder(ExampleRoot()) == ["a/important.log", "a/deep/c.txt", "b/x.txt"]
    ensures CutAfter(PreOrder(ExampleRoot()), CancelOnImportant()) == ["a/important.log"]
    ensures Reported(Walk(ExampleRoot(), CancelOnImportant())) == ["a/important.log", "b/x.txt"]
  {
    var root, h := ExampleRoot(), CancelOnImportant();
    var a, b := root.subdirs[0], root.subdirs[1];
    var deep := a.subdirs[0];
    CancelIsLocalToOneDirectory();
    assert [deep][..0] == [] && [a][..0] == [] && [a, b][..1] == [a];
    assert PreOrder(deep) == ["a/deep/c.txt"];
    assert PreOrder(a) == ["a/important.log", "a/deep/c.txt"];
    assert PreOrder(b) == ["b/x.txt"];
    assert PreOrderAll([a]) == PreOrder(a);
    assert PreOrderAll([a, b]) == PreOrder(a) + PreOrder(b);
    assert PreOrder(root) == ["a/important.log", "a/deep/c.txt", "b/x.txt"];
    assert StopAt(PreOrder(root), h) == 0;
    var evs := [Found("a/important.log"), CancelNotice, Found("b/x.txt")];
    assert evs[..2][..1] == [Found("a/important.log")];
    assert evs[..2] == [Found("a/important.log"), CancelNotice];
    assert Reported([Found("a/important.log")]) == ["a/important.log"] by {
      assert [Found("a/important.log")][..0] == [];
    }
  }

  // ---------------------------------------------------------------------
  // The walk as evidently intended: cancel stops the whole search
  // ---------------------------------------------------------------------

  /** The files a search that stops at the first cancelling or failing file of `s` reports of `s`. */
  function CutAfter(s: seq<string>, h: Handler): (r: seq<string>)
    ensures r <= s
    ensures forall j :: 0 <= j < |r| - 1 ==> React(h, r[j]) == Proceed
    ensures |r| < |s| ==> |r| > 0 && React(h, r[|r| - 1]) != Proceed
  {
    var k := StopAt(s, h);
    if k < |s| then s[..k + 1] else s
  }

  /**
    The walk with cancellation propagated upwards: the result also says
    whether the handler cancelled, and a cancelled subdirectory ends the
    loop over its siblings, and so on up to the root.
  */
  function WalkGlobal(d: Dir, h: Handler): (seq<Event>, bool)
    decreases d
  {
    if d.filesFail then ([Failure(d.path)], false)
    else if StopAt(d.files, h) < |d.files| then
      (FileEvents(d, h), React(h, d.files[StopAt(d.files, h)]) == Cancel)
    else if d.dirsFail then (FileEvents(d, h) + [Failure(d.path)], false)
    else
      var rest := WalkAllGlobal(d.subdirs, h);
      (FileEvents(d, h) + rest.0, rest.1)
  }

  function WalkAllGlobal(ds: seq<Dir>, h: Handler): (seq<Event>, bool)
    decreases ds
  {
    if ds == [] then ([], false)
    else
      var init := WalkAllGlobal(ds[..|ds| - 1], h);
      if init.1 then init
      else
        var last := WalkGlobal(ds[|ds| - 1], h);
        (init.0 + last.0, last.1)
  }

  /** Neither listing fails anywhere in the tree and the handler never throws. */
  ghost predicate NoFailures(d: Dir, h: Handler)
    decreases d
  {
    && !d.filesFail && !d.dirsFail
    && (forall j :: 0 <= j < |d.files| ==> React(h, d.files[j]) != Throws)
    && (forall i :: 0 <= i < |d.subdirs| ==> NoFailures(d.subdirs[i], h))
  }

  lemma {:induction false} StopAtAppend(a: seq<string>, b: seq<string>, h: Handler)
    ensures StopAt(a + b, h) == if StopAt(a, h) < |a| then StopAt(a, h) else |a| + StopAt(b, h)
    decreases |a|
  {
    if a == [] {
      assert a + b == b;
    } else if React(h, a[0]) == Proceed {
      assert (a + b)[0] == a[0];
      assert (a + b)[1..] == a[1..] + b;
      StopAtAppend(a[1..], b, h);
    } else {
      assert (a + b)[0] == a[0];
    }
  }

  lemma {:induction false} CutAfterAppend(a: seq<string>, b: seq<string>, h: Handler)
    ensures CutAfter(a + b, h) == if StopAt(a, h) < |a| then CutAfter(a, h) else a + CutAfter(b, h)
  {
    StopAtAppend(a, b, h);
    var k := StopAt(a, h);
    if k < |a| {
      assert (a + b)[..k + 1] == a[..k + 1];
    } else if StopAt(b, h) < |b| {
      assert (a + b)[..|a| + StopAt(b, h) + 1] == a + b[..StopAt(b, h) + 1];
    }
  }

  /**
    The evidently intended behaviour: with readable listings and a handler
    that does not throw, the search reports the files of the tree in
    pre-order up to and including the first one whose handler cancels, and
    nothing after it; it reports cancellation exactly when such a file exists.
  */
  lemma {:induction false} GlobalCancelStopsAtFirstCancel(d: Dir, h: Handler)
    requires NoFailures(d, h)
    ensures Reported(WalkGlobal(d, h).0) == CutAfter(PreOrder(d), h)
    ensures WalkGlobal(d, h).1 <==> StopAt(PreOrder(d), h) < |PreOrder(d)|
    decreases d, 1
  {
    var rest := PreOrderAll(d.subdirs);
    CutAfterAppend(d.files, rest, h);
    StopAtAppend(d.files, rest, h);
    ReportedByOneDirectory(d, h);
    var k := StopAt(d.files, h);
    if k < |d.files| {
      assert React(h, d.files[k]) == Cancel;
    } else {
      GlobalCancelStopsAtFirstCancelAll(d.subdirs, h);
      assert FileEvents(d, h) == Announce(d.files);
      ReportedAppend(FileEvents(d, h), WalkAllGlobal(d.subdirs, h).0);
      ReportedAnnounce(d.files);
    }
  }

  lemma {:induction false} GlobalCancelStopsAtFirstCancelAll(ds: seq<Dir>, h: Handler)
    requires forall i :: 0 <= i < |ds| ==> NoFailures(ds[i], h)
    ensures Reported(WalkAllGlobal(ds, h).0) == CutAfter(PreOrderAll(ds), h)
    ensures WalkAllGlobal(ds, h).1 <==> StopAt(PreOrderAll(ds), h) < |PreOrderAll(ds)|
    decreases ds, 0
  {
    if ds != [] {
      var init, last := ds[..|ds| - 1], ds[|ds| - 1];
      GlobalCancelStopsAtFirstCancelAll(init, h);
      CutAfterAppend(PreOrderAll(init), PreOrder(last), h);
      StopAtAppend(PreOrderAll(init), PreOrder(last), h);
      if !WalkAllGlobal(init, h).1 {
        GlobalCancelStopsAtFirstCancel(last, h);
        ReportedAppend(WalkAllGlobal(init, h).0, WalkGlobal(last, h).0);
      }
    }
  }

  // ---------------------------------------------------------------------
  // The objects of the program
  // ---------------------------------------------------------------------

  /** The `FileFound` event arguments: a path and a cancel flag the handler may set. */
  class FileArgs {
    const FileName: string
    var Cancel: bool

    constructor (fileName: string)
      ensures FileName == fileName && !Cancel
    {
      FileName := fileName;
      Cancel := false;
    }
  }

  class FileSearcher {
    /** The subscriber of the `FileFound` event, if any. */
    const fileFound: Handler
    /** Everything observable the searcher has done so far. */
    var log: seq<Event>

    constructor (subscriber: Handler)
      ensures fileFound == subscriber && log == []
    {
      fileFound := subscriber;
      log := [];
    }

    /**
      Raises `FileFound` with `e`. The subscriber may set `e.Cancel` or throw;
      `thrown` reports the exception to the caller's handler.
    */
    method OnFileFound(e: FileArgs) returns (thrown: bool)
      modifies this, e
      ensures log == old(log) + [Found(e.FileName)]
      ensures thrown <==> React(fileFound, e.FileName) == Throws
      ensures e.Cancel <==> old(e.Cancel) || React(fileFound, e.FileName) == Cancel
    {
      log := log + [Found(e.FileName)];
      thrown := false;
      match React(fileFound, e.FileName)
      case Proceed =>
      case Cancel => e.Cancel := true;
      case Throws => thrown := true;
    }

    /**
      Walks `d`: raises `FileFound` for each of its files, stopping this
      directory when the handler cancels; then searches each subdirectory.
      Any exception ends this directory only and is logged.
    */
    method Search(d: Dir)
      modifies this
      ensures log == old(log) + Walk(d, fileFound)
      decreases d
    {
      if d.filesFail {
        log := log + [Failure(d.path)];
        return;
      }
      ghost var before := log;
      var stopped := RaiseFileFound(d);
      if stopped {
        return;
      }
      ghost var files := FileEvents(d, fileFound);
      if d.dirsFail {
        log := log + [Failure(d.path)];
        AppendAssoc(before, files, [Failure(d.path)]);
        return;
      }
      SearchAll(d.subdirs);
      AppendAssoc(before, files, WalkAll(d.subdirs, fileFound));
    }

    /**
      The first loop of `Search`: raises `FileFound` for each file of `d` in
      listing order, stopping at the first one whose handler cancels (a
      `return` in the source) or throws (caught for the whole directory).
    */
    method RaiseFileFound(d: Dir) returns (stopped: bool)
      modifies this
      ensures stopped <==> StopAt(d.files, fileFound) < |d.files|
      ensures log == old(log) + FileEvents(d, fileFound)
    {
      var i := 0;
      while i < |d.files|
        invariant i <= StopAt(d.files, fileFound)
        invariant log == old(log) + Announce(d.files[..i])
      {
        var args := new FileArgs(d.files[i]);
        var thrown := OnFileFound(args);
        AnnounceSnoc(d.files, i);
        AppendAssoc(old(log), Announce(d.files[..i]), [Found(d.files[i])]);
        if thrown {
          log := log + [Failure(d.path)];
          AppendAssoc(old(log), Announce(d.files[..i + 1]), [Failure(d.path)]);
          return true;
        }
        if args.Cancel {
          log := log + [CancelNotice];
          AppendAssoc(old(log), Announce(d.files[..i + 1]), [CancelNotice]);
          return true;
        }
        i := i + 1;
      }
      assert d.files[..i] == d.files;
      return false;
    }

    /** The second loop of `Search`: searches each subdirectory in listing order. */
    method SearchAll(ds: seq<Dir>)
      modifies this
      ensures log == old(log) + WalkAll(ds, fileFound)
      decreases ds
    {
      for j := 0 to |ds|
        invariant log == old(log) + WalkAll(ds[..j], fileFound)
      {
        Search(ds[j]);
        WalkAllSnoc(ds, j, fileFound);
        AppendAssoc(old(log), WalkAll(ds[..j], fileFound), Walk(ds[j], fileFound));
      }
      assert ds[..|ds|] == ds;
    }
  }
}
