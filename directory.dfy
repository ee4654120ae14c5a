/**
 The one-slot directory history of the cd builtin (cdCommand, main.c:38-60).
 The file system is a set of existing directories, named as chdir takes them;
 HOME is an environment value that may be unset.
 */
module Directory {

  datatype Option<T> = None | Some(value: T)

  /** What a cd leaves behind: the working directory, the remembered directory, what went to stdout and stderr. */
  datatype CdOutcome = CdOutcome(cwd: string, curDir: string, out: seq<string>, err: seq<string>)

  /** chdir: it moves exactly to an existing directory, and otherwise leaves the working directory. */
  function ChangeTo(cwd: string, target: string, dirs: set<string>): (r: string)
    ensures r == target <==> target in dirs || target == cwd
    ensures r == cwd || r in dirs
    ensures target !in dirs ==> r == cwd
  {
    if target in dirs then target else cwd
  }

  /**
   cd with its argument, from working directory cwd with remembered directory
   curDir. "-" prints the remembered directory and goes there, keeping it;
   "~" remembers cwd and goes to HOME (chdir of an unset HOME fails quietly);
   any other argument remembers cwd and goes there, reporting a failure on
   stderr.
   */
  function CdStep(cwd: string, curDir: string, arg: string, dirs: set<string>, home: Option<string>): (r: CdOutcome)
    ensures r.curDir == (if arg == "-" then curDir else cwd)
    ensures r.cwd == cwd || r.cwd in dirs
    ensures arg == "-" ==> r.cwd == ChangeTo(cwd, curDir, dirs)
    ensures arg == "~" ==> r.cwd == (if home.Some? then ChangeTo(cwd, home.value, dirs) else cwd)
    ensures arg != "-" && arg != "~" ==> r.cwd == ChangeTo(cwd, arg, dirs)
    ensures r.out == (if arg == "-" then [curDir] else [])
    ensures r.err != [] <==> arg != "-" && arg != "~" && arg !in dirs
  {
    if arg == "-" then CdOutcome(ChangeTo(cwd, curDir, dirs), curDir, [curDir], [])
    else if arg == "~" then CdOutcome(if home.Some? then ChangeTo(cwd, home.value, dirs) else cwd, cwd, [], [])
    else if arg in dirs then CdOutcome(arg, cwd, [], [])
    else CdOutcome(cwd, cwd, [], ["CD Error\n"])
  }

  /** Two consecutive "cd -" end in the same place, with the remembered directory untouched. */
  lemma CdDashTwice(cwd: string, curDir: string, dirs: set<string>, home: Option<string>)
    ensures var once := CdStep(cwd, curDir, "-", dirs, home);
            var twice := CdStep(once.cwd, once.curDir, "-", dirs, home);
            twice.cwd == once.cwd && twice.curDir == curDir && twice.out == [curDir]
            && (curDir in dirs ==> twice.cwd == curDir)
  {
  }

  /** "cd -" goes to the remembered directory when it exists, and otherwise stays put. */
  lemma CdDashGoesBack(cwd: string, curDir: string, dirs: set<string>, home: Option<string>)
    ensures curDir in dirs ==> CdStep(cwd, curDir, "-", dirs, home).cwd == curDir
    ensures curDir !in dirs ==> CdStep(cwd, curDir, "-", dirs, home).cwd == cwd
  {
  }

  /** A regular cd that succeeds goes to its argument; "cd -" after it comes back to where it started. */
  lemma CdThenDash(cwd: string, curDir: string, arg: string, dirs: set<string>, home: Option<string>)
    requires arg != "-" && arg != "~" && arg in dirs && cwd in dirs
    ensures CdStep(cwd, curDir, arg, dirs, home).cwd == arg
    ensures var back := CdStep(CdStep(cwd, curDir, arg, dirs, home).cwd, CdStep(cwd, curDir, arg, dirs, home).curDir, "-", dirs, home);
            back.cwd == cwd && back.curDir == cwd
  {
  }

  /** A regular cd to a missing directory stays put, still remembers cwd, and prints "CD Error". */
  lemma CdFailure(cwd: string, curDir: string, arg: string, dirs: set<string>, home: Option<string>)
    requires arg != "-" && arg != "~" && arg !in dirs
    ensures CdStep(cwd, curDir, arg, dirs, home) == CdOutcome(cwd, cwd, [], ["CD Error\n"])
  {
  }

  /** "cd ~" goes home when HOME names a directory, and stays put when HOME is unset. */
  lemma CdHome(cwd: string, curDir: string, dirs: set<string>, home: Option<string>)
    ensures home.Some? && home.value in dirs ==> CdStep(cwd, curDir, "~", dirs, home).cwd == home.value
    ensures home.None? ==> CdStep(cwd, curDir, "~", dirs, home).cwd == cwd
  {
  }
}
