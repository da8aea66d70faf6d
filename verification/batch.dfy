/**
 The batch driver `compress_images` of main.py, over an abstract directory
 walk: which directories are skipped, which task each regular file becomes,
 and the two counters of the final summary.
 */
module Batch {

  import opened Images
  import opened Paths
  import opened Process

  /** Name of the output directory created under the input folder. */
  const OutputDirName := "compressed"

  /**
   One step of `os.walk(input)`: the directory, given by the names of the
   subdirectories leading to it from the input folder, with the names of its
   subdirectories and of its files as listed.
   */
  datatype Entry = Entry(sub: seq<string>, dirs: seq<string>, files: seq<string>)

  /** One call of `process_image` submitted to the pool. */
  datatype Task = Task(source: string, dest: string, maxDimension: int, quality: int)

  /** The two numbers of the closing message "Compression completed: X/Y files processed.". */
  datatype Summary = Summary(processed: nat, total: nat)

  /** A name as a directory listing gives it: not empty and without a separator. */
  predicate WellFormedName(name: string)
  {
    name != [] && Sep !in name
  }

  predicate WellFormedNames(names: seq<string>)
  {
    forall i :: 0 <= i < |names| ==> WellFormedName(names[i])
  }

  function OutputFolder(input: string): string
  {
    Join(input, OutputDirName)
  }

  /** The `root` the walk reports for an entry: the input joined with each name in turn. */
  function Root(input: string, sub: seq<string>): string
  {
    if sub == [] then input else Join(Root(input, sub[..|sub| - 1]), sub[|sub| - 1])
  }

  /** `os.path.relpath(root, input)` for a walk root: "." for the input itself. */
  function RelPath(sub: seq<string>): string
  {
    if sub == [] then "." else JoinNames(sub)
  }

  /** Names separated by single separators. */
  function JoinNames(names: seq<string>): (r: string)
    requires names != []
    ensures WellFormedNames(names) ==> r != [] && r[0] != Sep && r[|r| - 1] != Sep
  {
    if |names| == 1 then names[0]
    else JoinNames(names[..|names| - 1]) + [Sep] + names[|names| - 1]
  }

  /** The skip rule: the output folder path occurs anywhere inside the root. */
  predicate Skipped(input: string, root: string)
  {
    Contains(root, OutputFolder(input))
  }

  /** The mirrored directory under the output folder. */
  function OutputDir(input: string, sub: seq<string>): string
  {
    Join(OutputFolder(input), RelPath(sub))
  }

  /** The task for `file` listed in `root`, mirrored into `outDir`. */
  function FileTask(root: string, outDir: string, file: string, maxDimension: int, quality: int): Task
  {
    Task(Join(root, file), Join(outDir, file), maxDimension, quality)
  }

  /** The tasks for the regular files among `files` of `root`, in listing order. */
  function FileTasks(root: string, outDir: string, files: seq<string>, isFile: string -> bool,
                     maxDimension: int, quality: int): (r: seq<Task>)
    ensures |r| <= |files|
    ensures |r| == |RegularIndices(root, files, isFile)|
    ensures forall t :: t in r ==> t.maxDimension == maxDimension && t.quality == quality
  {
    if files == [] then []
    else
      var n := |files| - 1;
      var last := files[n];
      var rest := FileTasks(root, outDir, files[..n], isFile, maxDimension, quality);
      var here := if isFile(Join(root, last)) then [FileTask(root, outDir, last, maxDimension, quality)] else [];
      RegularIndicesStep(root, files, isFile);
      rest + here
  }

  /** The positions in `files` whose path under `root` is a regular file. */
  function RegularIndices(root: string, files: seq<string>, isFile: string -> bool): set<int>
  {
    set j | 0 <= j < |files| && isFile(Join(root, files[j]))
  }

  /** Adding a file to the listing adds its position exactly when it is regular. */
  lemma RegularIndicesStep(root: string, files: seq<string>, isFile: string -> bool)
    requires files != []
    ensures var n := |files| - 1;
            |RegularIndices(root, files, isFile)|
            == |RegularIndices(root, files[..n], isFile)| + (if isFile(Join(root, files[n])) then 1 else 0)
  {
    var n := |files| - 1;
    var before := RegularIndices(root, files[..n], isFile);
    assert forall j :: 0 <= j < n ==> files[..n][j] == files[j];
    assert n !in before;
    if isFile(Join(root, files[n])) {
      assert RegularIndices(root, files, isFile) == before + {n};
    } else {
      assert RegularIndices(root, files, isFile) == before;
    }
  }

  function EntryTasks(input: string, e: Entry, isFile: string -> bool, maxDimension: int, quality: int): seq<Task>
  {
    if Skipped(input, Root(input, e.sub)) then []
    else FileTasks(Root(input, e.sub), OutputDir(input, e.sub), e.files, isFile, maxDimension, quality)
  }

  /** The lists `f` gives for the entries, concatenated in walk order. */
  function Gather<T>(walk: seq<Entry>, f: Entry -> seq<T>): seq<T>
  {
    if walk == [] then [] else Gather(walk[..|walk| - 1], f) + f(walk[|walk| - 1])
  }

  /** The numbers `f` gives for the entries, added up. */
  function Sum(walk: seq<Entry>, f: Entry -> nat): nat
  {
    if walk == [] then 0 else Sum(walk[..|walk| - 1], f) + f(walk[|walk| - 1])
  }

  lemma {:induction false} GatherMembership<T>(walk: seq<Entry>, f: Entry -> seq<T>, x: T)
    ensures x in Gather(walk, f) <==> exists i :: 0 <= i < |walk| && x in f(walk[i])
  {
    if walk != [] {
      var n := |walk| - 1;
      GatherMembership(walk[..n], f, x);
      assert forall i :: 0 <= i < n ==> walk[..n][i] == walk[i];
    }
  }

  lemma {:induction false} GatherLength<T>(walk: seq<Entry>, f: Entry -> seq<T>)
    ensures |Gather(walk, f)| == Sum(walk, e => |f(e)|)
  {
    if walk != [] {
      GatherLength(walk[..|walk| - 1], f);
    }
  }

  lemma {:induction false} SumMonotone(walk: seq<Entry>, f: Entry -> nat, g: Entry -> nat)
    requires forall e :: e in walk ==> f(e) <= g(e)
    ensures Sum(walk, f) <= Sum(walk, g)
  {
    if walk != [] {
      var n := |walk| - 1;
      assert walk[n] in walk;
      assert forall e :: e in walk[..n] ==> e in walk;
      SumMonotone(walk[..n], f, g);
    }
  }

  lemma {:induction false} SumEqual(walk: seq<Entry>, f: Entry -> nat, g: Entry -> nat)
    requires forall e :: e in walk ==> f(e) == g(e)
    ensures Sum(walk, f) == Sum(walk, g)
  {
    if walk != [] {
      var n := |walk| - 1;
      assert walk[n] in walk;
      assert forall e :: e in walk[..n] ==> e in walk;
      SumEqual(walk[..n], f, g);
    }
  }

  lemma {:induction false} SumZero(walk: seq<Entry>, f: Entry -> nat)
    requires forall e :: e in walk ==> f(e) == 0
    ensures Sum(walk, f) == 0
  {
    if walk != [] {
      var n := |walk| - 1;
      assert walk[n] in walk;
      assert forall e :: e in walk[..n] ==> e in walk;
      SumZero(walk[..n], f);
    }
  }

  /** A two-entry walk contributes what its two entries give, in order. */
  lemma GatherPair<T>(a: Entry, b: Entry, f: Entry -> seq<T>)
    ensures Gather([a, b], f) == f(a) + f(b)
  {
    assert [a, b][..1] == [a] && [a][..0] == [];
    assert Gather([a], f) == [] + f(a);
    assert Gather([a, b], f) == Gather([a], f) + f(b);
  }

  lemma SumPair(a: Entry, b: Entry, f: Entry -> nat)
    ensures Sum([a, b], f) == f(a) + f(b)
  {
    assert [a, b][..1] == [a] && [a][..0] == [];
    assert Sum([a], f) == 0 + f(a);
    assert Sum([a, b], f) == Sum([a], f) + f(b);
  }

  /** Every task submitted to the pool, in submission order. */
  function Tasks(input: string, walk: seq<Entry>, isFile: string -> bool, maxDimension: int, quality: int): (r: seq<Task>)
    ensures |r| <= ListedFiles(walk)
    ensures forall t :: t in r ==> t.maxDimension == maxDimension && t.quality == quality
  {
    var f := e => EntryTasks(input, e, isFile, maxDimension, quality);
    GatherLength(walk, f);
    SumMonotone(walk, e => |f(e)|, (e: Entry) => |e.files|);
    forall t | t in Gather(walk, f)
      ensures t.maxDimension == maxDimension && t.quality == quality
    {
      GatherMembership(walk, f, t);
    }
    Gather(walk, f)
  }

  /** Number of file names the walk lists. */
  function ListedFiles(walk: seq<Entry>): nat
  {
    Sum(walk, (e: Entry) => |e.files|)
  }

  /**
   `total_files` as written: an entry is left out when the output folder path
   is one of its subdirectory names, which bare names never are.
   */
  function TotalFiles(input: string, walk: seq<Entry>): nat
  {
    Sum(walk, (e: Entry) => TotalShare(input, e))
  }

  /** What one entry adds to `total_files`. */
  function TotalShare(input: string, e: Entry): nat
  {
    if OutputFolder(input) in e.dirs then 0 else |e.files|
  }

  /** The count the filter evidently meant: files listed in roots that are not skipped. */
  function KeptFiles(input: string, walk: seq<Entry>): nat
  {
    Sum(walk, (e: Entry) => KeptShare(input, e))
  }

  /** What one entry adds to the intended count. */
  function KeptShare(input: string, e: Entry): nat
  {
    if Skipped(input, Root(input, e.sub)) then 0 else |e.files|
  }

  /** `processed_files`: the tasks whose result is true, collected in submission order. */
  function CountSucceeded(tasks: seq<Task>, succeeds: Task -> bool): (r: nat)
    ensures r <= |tasks|
    ensures r == |tasks| <==> forall k :: 0 <= k < |tasks| ==> succeeds(tasks[k])
    ensures r == 0 <==> forall k :: 0 <= k < |tasks| ==> !succeeds(tasks[k])
  {
    if tasks == [] then 0
    else
      var init := tasks[..|tasks| - 1];
      var n := CountSucceeded(init, succeeds);
      assert forall k :: 0 <= k < |init| ==> init[k] == tasks[k];
      n + (if succeeds(tasks[|tasks| - 1]) then 1 else 0)
  }

  /** The positions of the tasks that succeed. */
  function SuccessIndices(tasks: seq<Task>, succeeds: Task -> bool): set<int>
  {
    set k | 0 <= k < |tasks| && succeeds(tasks[k])
  }

  /**
   `compress_images(input, quality, maxDimension)`: `isFile` stands for
   `os.path.isfile` and `succeeds` for the value each task returns.
   */
  function CompressImages(input: string, walk: seq<Entry>, isFile: string -> bool, succeeds: Task -> bool,
                          quality: int, maxDimension: int): (r: Summary)
    ensures r.total == TotalFiles(input, walk)
    ensures r.processed == |SuccessIndices(Tasks(input, walk, isFile, maxDimension, quality), succeeds)|
    ensures r.processed <= |Tasks(input, walk, isFile, maxDimension, quality)| <= KeptFiles(input, walk)
  {
    var tasks := Tasks(input, walk, isFile, maxDimension, quality);
    TasksWithinKeptFiles(input, walk, isFile, maxDimension, quality);
    CountSucceededCountsSuccesses(tasks, succeeds);
    Summary(CountSucceeded(tasks, succeeds), TotalFiles(input, walk))
  }

  /** What one entry adds to the tasks: its regular files, unless its root is skipped. */
  function RegularShare(input: string, e: Entry, isFile: string -> bool): nat
  {
    if Skipped(input, Root(input, e.sub)) then 0 else |RegularIndices(Root(input, e.sub), e.files, isFile)|
  }

  /**
   Every regular file of a kept root becomes exactly one task, and nothing
   else does; so there are no more tasks than files under kept roots, and
   with every such file regular, exactly that many.
   */
  lemma TasksWithinKeptFiles(input: string, walk: seq<Entry>, isFile: string -> bool,
                             maxDimension: int, quality: int)
    ensures |Tasks(input, walk, isFile, maxDimension, quality)| == Sum(walk, (e: Entry) => RegularShare(input, e, isFile))
    ensures |Tasks(input, walk, isFile, maxDimension, quality)| <= KeptFiles(input, walk)
    ensures (forall e, f :: e in walk && !Skipped(input, Root(input, e.sub)) && f in e.files ==> isFile(Join(Root(input, e.sub), f)))
            ==> |Tasks(input, walk, isFile, maxDimension, quality)| == KeptFiles(input, walk)
  {
    var f := e => EntryTasks(input, e, isFile, maxDimension, quality);
    var kept := (e: Entry) => KeptShare(input, e);
    GatherLength(walk, f);
    SumEqual(walk, e => |f(e)|, (e: Entry) => RegularShare(input, e, isFile));
    SumMonotone(walk, e => |f(e)|, kept);
    if forall e, f :: e in walk && !Skipped(input, Root(input, e.sub)) && f in e.files ==> isFile(Join(Root(input, e.sub), f)) {
      forall e | e in walk
        ensures |f(e)| == kept(e)
      {
        if !Skipped(input, Root(input, e.sub)) {
          AllRegularFilesBecomeTasks(Root(input, e.sub), OutputDir(input, e.sub), e.files, isFile, maxDimension, quality);
        }
      }
      SumEqual(walk, e => |f(e)|, kept);
    }
  }

  lemma {:induction false} AllRegularFilesBecomeTasks(root: string, outDir: string, files: seq<string>,
                                                      isFile: string -> bool, maxDimension: int, quality: int)
    requires forall f :: f in files ==> isFile(Join(root, f))
    ensures |FileTasks(root, outDir, files, isFile, maxDimension, quality)| == |files|
  {
    if files != [] {
      var init := files[..|files| - 1];
      assert forall f :: f in init ==> f in files;
      assert files[|files| - 1] in files;
      AllRegularFilesBecomeTasks(root, outDir, init, isFile, maxDimension, quality);
    }
  }

  /** Task `t` comes from file `j` of entry `i`, whose root is kept. */
  predicate Yields(input: string, walk: seq<Entry>, isFile: string -> bool, maxDimension: int, quality: int,
                   t: Task, i: int, j: int)
  {
    && 0 <= i < |walk|
    && !Skipped(input, Root(input, walk[i].sub))
    && ListedTask(Root(input, walk[i].sub), OutputDir(input, walk[i].sub), walk[i].files, isFile, maxDimension, quality, t, j)
  }

  /**
   A task is submitted exactly when it is the task of a regular file listed in
   a root that is not skipped.
   */
  lemma TasksMembership(input: string, walk: seq<Entry>, isFile: string -> bool,
                        maxDimension: int, quality: int, t: Task)
    ensures t in Tasks(input, walk, isFile, maxDimension, quality)
            <==> exists i, j :: Yields(input, walk, isFile, maxDimension, quality, t, i, j)
  {
    GatherMembership(walk, e => EntryTasks(input, e, isFile, maxDimension, quality), t);
    if t in Tasks(input, walk, isFile, maxDimension, quality) {
      var i :| 0 <= i < |walk| && t in EntryTasks(input, walk[i], isFile, maxDimension, quality);
      var e := walk[i];
      FileTasksMembership(Root(input, e.sub), OutputDir(input, e.sub), e.files, isFile, maxDimension, quality, t);
      var j :| ListedTask(Root(input, e.sub), OutputDir(input, e.sub), e.files, isFile, maxDimension, quality, t, j);
      assert Yields(input, walk, isFile, maxDimension, quality, t, i, j);
    }
    if exists i, j :: Yields(input, walk, isFile, maxDimension, quality, t, i, j) {
      var i, j :| Yields(input, walk, isFile, maxDimension, quality, t, i, j);
      var e := walk[i];
      FileTasksMembership(Root(input, e.sub), OutputDir(input, e.sub), e.files, isFile, maxDimension, quality, t);
      assert t in EntryTasks(input, walk[i], isFile, maxDimension, quality);
    }
  }

  /**
   Task `t` is file `j` of the kept entry `i`, a regular file: it reads the
   file under its root and writes the same name into the mirrored directory
   under the output folder.
   */
  predicate Mirrors(input: string, walk: seq<Entry>, isFile: string -> bool, t: Task, i: int, j: int)
  {
    && 0 <= i < |walk| && 0 <= j < |walk[i].files|
    && !Skipped(input, Root(input, walk[i].sub))
    && isFile(Join(Root(input, walk[i].sub), walk[i].files[j]))
    && t.source == Join(Root(input, walk[i].sub), walk[i].files[j])
    && t.dest == OutputFolder(input) + [Sep] + RelPath(walk[i].sub) + [Sep] + walk[i].files[j]
    && Basename(t.dest) == walk[i].files[j]
  }

  /** Every submitted task mirrors a regular file of a kept root into the output tree. */
  lemma TasksMirrorSources(input: string, walk: seq<Entry>, isFile: string -> bool,
                           maxDimension: int, quality: int, t: Task)
    requires forall e :: e in walk ==> WellFormedNames(e.sub) && WellFormedNames(e.files)
    requires t in Tasks(input, walk, isFile, maxDimension, quality)
    ensures exists i, j :: Mirrors(input, walk, isFile, t, i, j)
  {
    TasksMembership(input, walk, isFile, maxDimension, quality, t);
    var i, j :| Yields(input, walk, isFile, maxDimension, quality, t, i, j);
    var e := walk[i];
    assert e in walk;
    assert WellFormedName(e.files[j]);
    DestinationMirrorsSource(input, e.sub, e.files[j]);
    assert Mirrors(input, walk, isFile, t, i, j);
  }

  /** File `j` of `files` is regular and `t` is its task. */
  predicate ListedTask(root: string, outDir: string, files: seq<string>, isFile: string -> bool,
                       maxDimension: int, quality: int, t: Task, j: int)
  {
    0 <= j < |files| && isFile(Join(root, files[j])) && t == FileTask(root, outDir, files[j], maxDimension, quality)
  }

  lemma {:induction false} FileTasksMembership(root: string, outDir: string, files: seq<string>, isFile: string -> bool,
                                               maxDimension: int, quality: int, t: Task)
    ensures t in FileTasks(root, outDir, files, isFile, maxDimension, quality)
            <==> exists j :: ListedTask(root, outDir, files, isFile, maxDimension, quality, t, j)
  {
    if files != [] {
      var n := |files| - 1;
      var init := files[..n];
      FileTasksMembership(root, outDir, init, isFile, maxDimension, quality, t);
      if exists j :: ListedTask(root, outDir, files, isFile, maxDimension, quality, t, j) {
        var j :| ListedTask(root, outDir, files, isFile, maxDimension, quality, t, j);
        if j < n {
          assert init[j] == files[j];
          assert ListedTask(root, outDir, init, isFile, maxDimension, quality, t, j);
        }
      }
      if t in FileTasks(root, outDir, init, isFile, maxDimension, quality) {
        var j :| ListedTask(root, outDir, init, isFile, maxDimension, quality, t, j);
        assert init[j] == files[j];
        assert ListedTask(root, outDir, files, isFile, maxDimension, quality, t, j);
      }
      if t in FileTasks(root, outDir, files, isFile, maxDimension, quality)
         && t !in FileTasks(root, outDir, init, isFile, maxDimension, quality) {
        assert ListedTask(root, outDir, files, isFile, maxDimension, quality, t, n);
      }
    }
  }

  /**
   The destination mirrors the source: the output folder, the source's
   directory relative to the input, then the file name, which is also the
   destination's basename. The source directory is the input joined with the
   same relative path.
   */
  lemma DestinationMirrorsSource(input: string, sub: seq<string>, file: string)
    requires WellFormedNames(sub) && WellFormedName(file)
    ensures Join(OutputDir(input, sub), file) == OutputFolder(input) + [Sep] + RelPath(sub) + [Sep] + file
    ensures Basename(Join(OutputDir(input, sub), file)) == file
    ensures sub != [] ==> Root(input, sub) == Join(input, RelPath(sub))
  {
    var dir := OutputDir(input, sub);
    assert dir == OutputFolder(input) + [Sep] + RelPath(sub);
    assert Join(dir, file) == (dir + [Sep]) + file;
    LastIndexAppend(dir + [Sep], file, Sep);
    if sub != [] {
      RootIsJoinedRelPath(input, sub);
    }
  }

  lemma {:induction false} RootIsJoinedRelPath(input: string, sub: seq<string>)
    requires sub != [] && WellFormedNames(sub)
    ensures Root(input, sub) == Join(input, JoinNames(sub))
  {
    var n := |sub| - 1;
    if n > 0 {
      var init := sub[..n];
      assert WellFormedNames(init) by {
        forall i | 0 <= i < |init|
          ensures WellFormedName(init[i])
        {
          assert init[i] == sub[i];
        }
      }
      RootIsJoinedRelPath(input, init);
      assert sub[n] == sub[|sub| - 1];
      assert WellFormedName(sub[n]);
      JoinJoin(input, JoinNames(init), sub[n]);
    }
  }

  /** Joining a relative path and then a name is joining the path extended by the name. */
  lemma JoinJoin(a: string, x: string, name: string)
    requires x != [] && x[0] != Sep && x[|x| - 1] != Sep
    requires WellFormedName(name)
    ensures Join(Join(a, x), name) == Join(a, x + [Sep] + name)
  {
    var y := x + [Sep] + name;
    assert name[0] != Sep by { assert name[0] in name; }
    assert y[0] == x[0];
    var glue := if a == [] || a[|a| - 1] == Sep then a else a + [Sep];
    assert Join(a, x) == glue + x;
    assert Join(a, y) == glue + y;
    var ax := glue + x;
    assert ax[|ax| - 1] == x[|x| - 1];
    assert Join(ax, name) == ax + [Sep] + name;
    assert ax + [Sep] + name == glue + y;
  }

  /**
   The skip rule is a substring test: the output folder itself, everything
   below it, and every sibling whose name merely starts with "compressed"
   (such as "compressed_old") are skipped.
   */
  lemma SkipsEverythingNamedLikeTheOutput(input: string, sub: seq<string>)
    requires sub != [] && WellFormedNames(sub)
    requires |OutputDirName| <= |sub[0]| && sub[0][..|OutputDirName|] == OutputDirName
    ensures Skipped(input, Root(input, sub))
  {
    var root := Root(input, sub);
    var out := OutputFolder(input);
    var first := Join(input, sub[0]);
    RootExtendsFirstStep(input, sub);
    JoinPrefix(input, OutputDirName, sub[0]);
    assert out <= root by {
      assert |out| <= |first| <= |root|;
      forall k | 0 <= k < |out|
        ensures out[k] == root[k]
      {
        assert out[k] == first[k];
      }
    }
    assert root[0..] == root;
  }

  /** Joining onto a prefix of a name yields a prefix of the joined path. */
  lemma JoinPrefix(a: string, b: string, c: string)
    requires b != [] && b[0] != Sep && b <= c
    ensures Join(a, b) <= Join(a, c)
  {
    assert c[0] == b[0];
  }

  lemma {:induction false} RootExtendsFirstStep(input: string, sub: seq<string>)
    requires sub != [] && WellFormedNames(sub)
    ensures Join(input, sub[0]) <= Root(input, sub)
  {
    var n := |sub| - 1;
    if n > 0 {
      var init := sub[..n];
      assert init[0] == sub[0];
      assert WellFormedNames(init) by {
        forall i | 0 <= i < |init|
          ensures WellFormedName(init[i])
        {
          assert init[i] == sub[i];
        }
      }
      RootExtendsFirstStep(input, init);
      assert WellFormedName(sub[n]);
    }
  }

  /**
   Because the output folder path is tested against bare directory names,
   the total leaves nothing out: it counts every listed file.
   */
  lemma TotalCountsEveryListedFile(input: string, walk: seq<Entry>)
    requires input != []
    requires forall e :: e in walk ==> WellFormedNames(e.dirs)
    ensures TotalFiles(input, walk) == ListedFiles(walk)
  {
    var out := OutputFolder(input);
    assert Sep in out by {
      if input[|input| - 1] == Sep {
        assert out[|input| - 1] == Sep;
      } else {
        assert out[|input|] == Sep;
      }
    }
    forall e | e in walk
      ensures out !in e.dirs
    {
      assert WellFormedNames(e.dirs);
    }
    SumEqual(walk, (e: Entry) => TotalShare(input, e), (e: Entry) => |e.files|);
  }

  /**
   With a non-empty input and a walk as the file system reports it, the
   processed count never exceeds the total.
   */
  lemma ProcessedAtMostTotal(input: string, walk: seq<Entry>, isFile: string -> bool, succeeds: Task -> bool,
                             quality: int, maxDimension: int)
    requires input != []
    requires forall e :: e in walk ==> WellFormedNames(e.dirs)
    ensures CompressImages(input, walk, isFile, succeeds, quality, maxDimension).processed
            <= CompressImages(input, walk, isFile, succeeds, quality, maxDimension).total
  {
    TotalCountsEveryListedFile(input, walk);
    KeptWithinListed(input, walk);
  }

  lemma KeptWithinListed(input: string, walk: seq<Entry>)
    ensures KeptFiles(input, walk) <= ListedFiles(walk)
  {
    SumMonotone(walk, (e: Entry) => KeptShare(input, e), (e: Entry) => |e.files|);
  }

  /**
   The scenario of `test_compress_images_skips_compressed_folder`: one new
   image next to a "compressed" folder holding one file, every path a regular file
   and every task succeeding. One task is scheduled and succeeds, yet the
   summary reads 1/2, because the total also counts the file under
   "compressed"; the evidently intended total is 1.
   */
  lemma PreexistingOutputCountedInTotal(input: string, isFile: string -> bool, succeeds: Task -> bool,
                                        quality: int, maxDimension: int)
    requires input != []
    requires forall p :: isFile(p)
    requires forall t :: succeeds(t)
    ensures var walk := [Entry([], [OutputDirName], ["new_image.png"]),
                         Entry([OutputDirName], [], ["already_compressed_zmensene.jpg"])];
            && CompressImages(input, walk, isFile, succeeds, quality, maxDimension) == Summary(1, 2)
            && CompressImagesIntended(input, walk, isFile, succeeds, quality, maxDimension) == Summary(1, 1)
  {
    var e0 := Entry([], [OutputDirName], ["new_image.png"]);
    var e1 := Entry([OutputDirName], [], ["already_compressed_zmensene.jpg"]);
    var walk := [e0, e1];
    var out := OutputFolder(input);
    assert |out| > |OutputDirName|;
    assert out !in e0.dirs;
    assert !Skipped(input, Root(input, e0.sub));
    assert Root(input, e1.sub) == out;
    assert Skipped(input, out) by {
      assert out <= out[0..];
    }
    assert TotalShare(input, e0) == 1 && TotalShare(input, e1) == 1;
    assert KeptShare(input, e0) == 1 && KeptShare(input, e1) == 0;
    SumPair(e0, e1, (e: Entry) => TotalShare(input, e));
    SumPair(e0, e1, (e: Entry) => KeptShare(input, e));
    var task := FileTask(input, OutputDir(input, []), "new_image.png", maxDimension, quality);
    assert ["new_image.png"][..0] == [];
    assert FileTasks(input, OutputDir(input, []), e0.files, isFile, maxDimension, quality) == [task];
    assert EntryTasks(input, e0, isFile, maxDimension, quality) == [task];
    assert EntryTasks(input, e1, isFile, maxDimension, quality) == [];
    GatherPair(e0, e1, (e: Entry) => EntryTasks(input, e, isFile, maxDimension, quality));
    assert Tasks(input, walk, isFile, maxDimension, quality) == [task];
    assert CountSucceeded([task], succeeds) == 1;
  }

  /** With every kept file regular, the corrected total equals the number of scheduled tasks. */
  lemma IntendedTotalMatchesSchedule(input: string, walk: seq<Entry>, isFile: string -> bool,
                                     quality: int, maxDimension: int)
    requires forall e, f :: e in walk && !Skipped(input, Root(input, e.sub)) && f in e.files ==> isFile(Join(Root(input, e.sub), f))
    ensures KeptFiles(input, walk) == |Tasks(input, walk, isFile, maxDimension, quality)|
  {
    TasksWithinKeptFiles(input, walk, isFile, maxDimension, quality);
  }

  /**
   The summary with the total the skip rule evidently meant: the same
   processed count over the files listed in roots that are not skipped.
   */
  function CompressImagesIntended(input: string, walk: seq<Entry>, isFile: string -> bool, succeeds: Task -> bool,
                                  quality: int, maxDimension: int): (r: Summary)
    ensures r.processed == CompressImages(input, walk, isFile, succeeds, quality, maxDimension).processed
    ensures r.processed <= r.total
    ensures (forall e, f :: e in walk && !Skipped(input, Root(input, e.sub)) && f in e.files ==> isFile(Join(Root(input, e.sub), f)))
            ==> r.total == |Tasks(input, walk, isFile, maxDimension, quality)|
  {
    TasksWithinKeptFiles(input, walk, isFile, maxDimension, quality);
    Summary(CompressImages(input, walk, isFile, succeeds, quality, maxDimension).processed, KeptFiles(input, walk))
  }

  /** A folder without files reports 0/0. */
  lemma EmptyFolderSummary(input: string, walk: seq<Entry>, isFile: string -> bool,
                           succeeds: Task -> bool, quality: int, maxDimension: int)
    requires forall e :: e in walk ==> e.files == []
    ensures CompressImages(input, walk, isFile, succeeds, quality, maxDimension) == Summary(0, 0)
  {
    SumZero(walk, (e: Entry) => TotalShare(input, e));
    SumZero(walk, (e: Entry) => KeptShare(input, e));
  }

  /** The processed count is the number of tasks that return true. */
  lemma {:induction false} CountSucceededCountsSuccesses(tasks: seq<Task>, succeeds: Task -> bool)
    ensures CountSucceeded(tasks, succeeds) == |SuccessIndices(tasks, succeeds)|
  {
    if tasks == [] {
      assert SuccessIndices(tasks, succeeds) == {};
    } else {
      CountSucceededCountsSuccesses(tasks[..|tasks| - 1], succeeds);
      SuccessIndicesStep(tasks, succeeds);
    }
  }

  /** Adding a task adds its position to the successes exactly when it succeeds. */
  lemma SuccessIndicesStep(tasks: seq<Task>, succeeds: Task -> bool)
    requires tasks != []
    ensures var n := |tasks| - 1;
            |SuccessIndices(tasks, succeeds)|
            == |SuccessIndices(tasks[..n], succeeds)| + (if succeeds(tasks[n]) then 1 else 0)
  {
    var n := |tasks| - 1;
    var before := SuccessIndices(tasks[..n], succeeds);
    assert forall k :: 0 <= k < n ==> tasks[..n][k] == tasks[k];
    assert n !in before;
    if succeeds(tasks[n]) {
      assert SuccessIndices(tasks, succeeds) == before + {n};
    } else {
      assert SuccessIndices(tasks, succeeds) == before;
    }
  }

  /**
   The result of each task as `process_image` computes it, given what the
   codec makes of each source path and whether each save goes through.
   */
  function ImageOracle(decode: string -> Source, saveSucceeds: string -> bool): Task -> bool
  {
    (t: Task) => Succeeded(ProcessImage(decode(t.source), t.dest, t.maxDimension, t.quality, saveSucceeds(OutputPath(t.dest))))
  }

  /** With a non-positive maximum dimension every image fails, so nothing is processed. */
  lemma NonPositiveMaxProcessesNothing(input: string, walk: seq<Entry>, isFile: string -> bool,
                                       decode: string -> Source, saveSucceeds: string -> bool,
                                       quality: int, maxDimension: int)
    requires maxDimension <= 0
    ensures CompressImages(input, walk, isFile, ImageOracle(decode, saveSucceeds), quality, maxDimension).processed == 0
  {
    var tasks := Tasks(input, walk, isFile, maxDimension, quality);
    var succeeds := ImageOracle(decode, saveSucceeds);
    forall k | 0 <= k < |tasks|
      ensures !succeeds(tasks[k])
    {
      var t := tasks[k];
      assert t.maxDimension == maxDimension;
      assert succeeds(t) == Succeeded(ProcessImage(decode(t.source), t.dest, t.maxDimension, t.quality,
                                                   saveSucceeds(OutputPath(t.dest))));
    }
  }
}
