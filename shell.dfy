/**
 The shell's command dispatch and its global state (main.c): the job table
 jobs[] with its mark lastJ, the remembered directory curDir of cd, and the
 process's working directory. What the operating system answers (the pid of
 the shell, fork, whether a job's process has finished, which directories
 exist, HOME) is an input, an Env.
 */
module Interpreter {
  import opened Tokenizer
  import opened JobTable
  import opened Directory

  /** What the command name selects (main.c:212-263). */
  datatype Action = Exit | ChangeDir | ListJobs | Launch

  /** The builtins table: the position of a name is the position of its function. */
  const BUILTINS: seq<string> := ["exit", "cd"]

  /** exit and cd are builtins, jobs is handled next, anything else is launched. */
  function Classify(name: string): (a: Action)
    ensures a == Exit <==> name == BUILTINS[0]
    ensures a == ChangeDir <==> name == BUILTINS[1]
    ensures a == ListJobs <==> name == "jobs"
    ensures a == Launch <==> name !in BUILTINS && name != "jobs"
  {
    if name == "exit" then Exit
    else if name == "cd" then ChangeDir
    else if name == "jobs" then ListJobs
    else Launch
  }

  /**
   The builtins loop (main.c:212-224): the position of the first builtin
   whose name matches, or |BUILTINS| when none does.
   */
  method LookupBuiltin(name: string) returns (q: nat)
    ensures q <= |BUILTINS|
    ensures q < |BUILTINS| ==> BUILTINS[q] == name
    ensures q == |BUILTINS| <==> name !in BUILTINS
    ensures q == 0 <==> Classify(name) == Exit
    ensures q == 1 <==> Classify(name) == ChangeDir
  {
    q := 0;
    while q < |BUILTINS| && BUILTINS[q] != name
      invariant q <= |BUILTINS|
      invariant forall p :: 0 <= p < q ==> BUILTINS[p] != name
    {
      q := q + 1;
    }
  }

  /** What fork answers in the parent: a child's pid, or failure. */
  datatype Spawn = Forked(pid: nat) | ForkFailed

  /** The world as the shell sees it for one command. */
  datatype Env = Env(selfPid: nat, dirs: set<string>, home: Option<string>, finished: nat -> bool, spawn: Spawn)

  /** What one command writes to stdout and stderr, and whether the shell exits. */
  datatype Effect = Effect(out: seq<string>, err: seq<string>, exited: bool)

  class Shell {
    /** The job table: a fixed array of MAX_JOBS slots. */
    const jobs: array<Slot>
    /** The mark: slots from here on are free. */
    var lastJ: int
    /** The directory "cd -" returns to. */
    var curDir: string
    /** The working directory of the shell process. */
    var cwd: string

    /** The table has MAX_JOBS slots, the mark lies within it, and no job sits at or above it. */
    ghost predicate Valid()
      reads this, jobs
    {
      jobs.Length == MAX_JOBS && 0 <= lastJ <= MAX_JOBS &&
      forall k :: lastJ <= k < MAX_JOBS ==> jobs[k] == Empty
    }

    /** The start of main (main.c:330-334): an empty table and an empty curDir. */
    constructor (start: string)
      ensures Valid() && lastJ == 0 && Live(jobs[..]) == []
      ensures fresh(jobs)
      ensures curDir == "" && cwd == start
    {
      jobs := new Slot[MAX_JOBS](_ => Empty);
      lastJ := 0;
      curDir := "";
      cwd := start;
      new;
      LiveOfEmpties(jobs[..]);
    }

    /**
     The compaction compressJobs is meant to perform: the jobs are copied, in
     order, to the front of a scratch table whose other slots are empty, the
     scratch table is copied back, and the mark becomes the number of jobs.
     */
    method Compress()
      requires jobs.Length == MAX_JOBS
      modifies this, jobs
      ensures jobs[..] == Compacted(old(jobs[..])) && lastJ == |Live(old(jobs[..]))|
      ensures Valid() && Live(jobs[..]) == Live(old(jobs[..]))
      ensures curDir == old(curDir) && cwd == old(cwd)
    {
      ghost var s := jobs[..];
      var copy := new Slot[MAX_JOBS + 1](_ => Empty);
      var j := 0;
      for i := 0 to MAX_JOBS
        modifies copy
        invariant 0 <= j <= i
        invariant copy[..j] == Occupy(Live(s[..i]))
        invariant forall k :: j <= k <= MAX_JOBS ==> copy[k] == Empty
      {
        LivePrefixStep(s, i);
        if jobs[i].Occupied? {
          OccupySnoc(Live(s[..i]), jobs[i].job);
          copy[j] := jobs[i];
          assert copy[..j + 1] == copy[..j] + [jobs[i]];
          j := j + 1;
        }
      }
      assert s[..MAX_JOBS] == s;
      CompactedKeepsJobs(s);
      for k := 0 to MAX_JOBS
        modifies jobs
        invariant forall m :: 0 <= m < k ==> jobs[m] == copy[m]
      {
        jobs[k] := copy[k];
      }
      lastJ := j;
      assert forall m :: 0 <= m < j ==> copy[m] == copy[..j][m];
      assert jobs[..] == Compacted(s);
    }

    /**
     compressJobs as written (main.c:92-112). The write index j advances with
     i, so the scratch table receives every slot where it was; the restore
     loop stops at the first empty slot; the mark becomes one below it. The
     scratch slot copy[MAX_JOBS] is taken to be NULL, which is what the
     out-of-bounds store at main.c:94 aims at.
     */
    method CompressAsWritten()
      requires jobs.Length == MAX_JOBS
      modifies this, jobs
      ensures jobs[..] == old(jobs[..]) && lastJ == FirstEmpty(old(jobs[..])) - 1
      ensures curDir == old(curDir) && cwd == old(cwd)
    {
      ghost var s := jobs[..];
      var copy := new Slot[MAX_JOBS + 1](_ => Empty);
      var j := 0;
      for i := 0 to MAX_JOBS
        modifies copy
        invariant j == i
        invariant forall m :: 0 <= m < i ==> copy[m] == s[m]
        invariant copy[MAX_JOBS] == Empty
      {
        if jobs[i] == Empty {
          copy[i] := Empty;
        } else {
          copy[j] := jobs[i];
        }
        j := j + 1;
      }
      var k := 0;
      while copy[k] != Empty
        modifies jobs
        invariant 0 <= k <= MAX_JOBS
        invariant forall m :: 0 <= m < k ==> s[m].Occupied?
        invariant jobs[..] == s
        decreases MAX_JOBS - k
      {
        jobs[k] := copy[k];
        assert jobs[..] == s;
        k := k + 1;
      }
      assert k < MAX_JOBS ==> s[k] == Empty;
      FirstEmptyIs(s, k);
      lastJ := k - 1;
    }

    /**
     Recording a background job (main.c:297-309): the job goes into the slot
     at the mark, the mark moves up by one, and when it reaches MAX_JOBS the
     table is compacted.
     */
    method Insert(job: Job)
      requires Valid() && lastJ < MAX_JOBS
      modifies this, jobs
      ensures Valid() && Live(jobs[..]) == Live(old(jobs[..])) + [job]
      ensures old(lastJ) + 1 < MAX_JOBS ==>
                jobs[..] == old(jobs[..])[old(lastJ) := Occupied(job)] && lastJ == old(lastJ) + 1
      ensures old(lastJ) + 1 == MAX_JOBS ==>
                jobs[..] == Compacted(old(jobs[..])[old(lastJ) := Occupied(job)]) && lastJ == |Live(jobs[..])|
      ensures curDir == old(curDir) && cwd == old(cwd)
    {
      LiveInsert(jobs[..], lastJ, job);
      jobs[lastJ] := Occupied(job);
      lastJ := lastJ + 1;
      if lastJ == MAX_JOBS {
        Compress();
      }
    }

    /**
     Recording a background job as the code does it (main.c:297-309): at the
     fill point compressJobs runs as written, so every slot stays and the mark
     falls to one below the first empty slot. When slot 0 was reaped before,
     the mark becomes -1, and the next background job is stored at jobs[-1].
     */
    method InsertAsWritten(job: Job)
      requires jobs.Length == MAX_JOBS && 0 <= lastJ < MAX_JOBS
      modifies this, jobs
      ensures jobs[..] == old(jobs[..])[old(lastJ) := Occupied(job)]
      ensures old(lastJ) + 1 < MAX_JOBS ==> lastJ == old(lastJ) + 1
      ensures old(lastJ) + 1 == MAX_JOBS ==> lastJ == FirstEmpty(jobs[..]) - 1
      ensures old(lastJ) + 1 == MAX_JOBS && old(jobs[0]) == Empty ==> lastJ == -1
      ensures curDir == old(curDir) && cwd == old(cwd)
    {
      ghost var s := jobs[..];
      jobs[lastJ] := Occupied(job);
      lastJ := lastJ + 1;
      if lastJ == MAX_JOBS {
        if s[0] == Empty {
          FillAsWrittenHidesJobs(s, job);
        }
        CompressAsWritten();
      }
    }

    /**
     The jobs builtin (main.c:226-255): every job below the mark is polled;
     a finished one is cleared from its slot, a running one is printed as its
     pid followed by its arguments. The mark and the slots from it on stay.
     */
    method ListAndReap(finished: nat -> bool) returns (out: seq<string>)
      requires Valid()
      modifies jobs
      ensures Valid()
      ensures jobs[..] == Reaped(old(jobs[..]), finished)
      ensures forall k :: lastJ <= k < MAX_JOBS ==> jobs[k] == old(jobs[k])
      ensures Live(jobs[..]) == Running(Live(old(jobs[..])), finished)
      ensures out == Listing(Live(jobs[..]))
    {
      ghost var s := jobs[..];
      out := PollBelowMark(finished);
      ReapedAboveMark(s, lastJ, finished, jobs[..]);
      LiveBelowMark(s, lastJ);
    }

    /**
     The loop of the jobs builtin (main.c:227-254): the slots below the mark
     are polled in order; the slots from the mark on are not touched.
     */
    method PollBelowMark(finished: nat -> bool) returns (out: seq<string>)
      requires jobs.Length == MAX_JOBS && 0 <= lastJ <= MAX_JOBS
      modifies jobs
      ensures forall k :: 0 <= k < lastJ ==> jobs[k] == ReapSlot(old(jobs[k]), finished)
      ensures forall k :: lastJ <= k < MAX_JOBS ==> jobs[k] == old(jobs[k])
      ensures out == Listing(Running(Live(old(jobs[..])[..lastJ]), finished))
    {
      ghost var s := jobs[..];
      out := [];
      var a := 0;
      while a < lastJ
        invariant 0 <= a <= lastJ
        invariant forall k :: 0 <= k < a ==> jobs[k] == ReapSlot(s[k], finished)
        invariant forall k :: a <= k < MAX_JOBS ==> jobs[k] == s[k]
        invariant out == Listing(Running(Live(s[..a]), finished))
      {
        ListingStep(s, a, finished);
        assert jobs[a] == s[a];
        var printed := Poll(a, finished);
        assert printed == if s[a].Occupied? && !finished(s[a].job.pid) then [JobLine(s[a].job)] else [];
        out := out + printed;
        a := a + 1;
      }
    }

    /**
     One slot of the jobs listing (main.c:228-254): a job whose process
     finished is cleared, a running one is printed; no other slot changes.
     */
    method Poll(a: nat, finished: nat -> bool) returns (printed: seq<string>)
      requires a < jobs.Length
      modifies jobs
      ensures jobs[a] == ReapSlot(old(jobs[a]), finished)
      ensures forall k :: 0 <= k < jobs.Length && k != a ==> jobs[k] == old(jobs[k])
      ensures printed == if old(jobs[a]).Occupied? && !finished(old(jobs[a]).job.pid)
                         then [JobLine(old(jobs[a]).job)] else []
    {
      printed := [];
      if jobs[a].Occupied? {
        if finished(jobs[a].job.pid) {
          jobs[a] := Empty;
        } else {
          var line := FormatJob(jobs[a].job);
          printed := [line];
        }
      }
    }

    /** The cd builtin (cdCommand, main.c:38-60) with its argument. */
    method Cd(arg: string, dirs: set<string>, home: Option<string>) returns (out: seq<string>, err: seq<string>)
      modifies this
      ensures CdOutcome(cwd, curDir, out, err) == CdStep(old(cwd), old(curDir), arg, dirs, home)
      ensures lastJ == old(lastJ)
    {
      out, err := [], [];
      if arg == "-" {
        out := [curDir];
        cwd := ChangeTo(cwd, curDir, dirs);
        return;
      }
      if arg == "~" {
        curDir := cwd;
        if home.Some? {
          cwd := ChangeTo(cwd, home.value, dirs);
        }
        return;
      }
      curDir := cwd;
      if arg in dirs {
        cwd := arg;
      } else {
        err := ["CD Error\n"];
      }
    }

    /**
     regularShell as seen from the shell (main.c:272-321): the child's pid is
     printed; a background job is recorded, a foreground one waited for; a
     failed fork reports "Fork Error".
     */
    method Run(argv: Argv, background: bool, spawn: Spawn) returns (r: Effect)
      requires Valid() && (background && spawn.Forked? ==> lastJ < MAX_JOBS)
      modifies this, jobs
      ensures Valid() && curDir == old(curDir) && cwd == old(cwd)
      ensures spawn.ForkFailed? ==> r == Effect([], ["Fork Error\n"], false)
      ensures spawn.Forked? ==> r == Effect([Decimal(spawn.pid) + "\n"], [], false)
      ensures spawn.Forked? && background ==> Live(jobs[..]) == Live(old(jobs[..])) + [Job(spawn.pid, argv)]
      ensures spawn.Forked? && background && old(lastJ) + 1 < MAX_JOBS ==>
                jobs[..] == old(jobs[..])[old(lastJ) := Occupied(Job(spawn.pid, argv))] && lastJ == old(lastJ) + 1
      ensures spawn.Forked? && background && old(lastJ) + 1 == MAX_JOBS ==>
                jobs[..] == Compacted(old(jobs[..])[old(lastJ) := Occupied(Job(spawn.pid, argv))]) &&
                lastJ == |Live(jobs[..])|
      ensures !(spawn.Forked? && background) ==> jobs[..] == old(jobs[..]) && lastJ == old(lastJ)
    {
      match spawn
      case ForkFailed =>
        r := Effect([], ["Fork Error\n"], false);
      case Forked(pid) =>
        r := Effect([Decimal(pid) + "\n"], [], false);
        if background {
          Insert(Job(pid, argv));
        }
    }

    /**
     One command line (parseLine, main.c:153-264): tokenize, strip a final
     "&", then run exit or cd (after printing the shell's pid), the jobs
     listing, or launch the program. The source reads argv[0] after the
     strip, and cd reads argv[1], so both must be there.
     */
    method Execute(line: string, env: Env) returns (r: Effect)
      requires Valid()
      requires SENTINEL in line && Content(line) != [] && Fits(Tokens(line))
      requires Request(line).args != []
      requires Classify(Request(line).args[0]) == ChangeDir ==> |Request(line).args| >= 2
      requires Classify(Request(line).args[0]) == Launch && Request(line).background && env.spawn.Forked?
               ==> lastJ < MAX_JOBS
      modifies this, jobs
      ensures Valid()
      ensures (Classify(Request(line).args[0]) != ListJobs &&
               !(Classify(Request(line).args[0]) == Launch && Request(line).background && env.spawn.Forked?))
              ==> jobs[..] == old(jobs[..]) && lastJ == old(lastJ)
      ensures Classify(Request(line).args[0]) != ChangeDir ==> curDir == old(curDir) && cwd == old(cwd)
      ensures Classify(Request(line).args[0]) == Exit ==> r == Effect([Decimal(env.selfPid) + "\n"], [], true)
      ensures Classify(Request(line).args[0]) == ChangeDir ==>
                var c := CdStep(old(cwd), old(curDir), Request(line).args[1], env.dirs, env.home);
                r == Effect([Decimal(env.selfPid) + "\n"] + c.out, c.err, false) && cwd == c.cwd && curDir == c.curDir
      ensures Classify(Request(line).args[0]) == ListJobs ==>
                jobs[..] == Reaped(old(jobs[..]), env.finished) &&
                Live(jobs[..]) == Running(Live(old(jobs[..])), env.finished) && lastJ == old(lastJ) &&
                r == Effect(Listing(Live(jobs[..])), [], false)
      ensures Classify(Request(line).args[0]) == Launch ==>
                r == (if env.spawn.Forked? then Effect([Decimal(env.spawn.pid) + "\n"], [], false)
                      else Effect([], ["Fork Error\n"], false))
      ensures Classify(Request(line).args[0]) == Launch && Request(line).background && env.spawn.Forked? ==>
                Live(jobs[..]) == Live(old(jobs[..])) + [Job(env.spawn.pid, Request(line).args)]
      ensures Classify(Request(line).args[0]) == Launch && Request(line).background && env.spawn.Forked? &&
              old(lastJ) + 1 < MAX_JOBS ==>
                jobs[..] == old(jobs[..])[old(lastJ) := Occupied(Job(env.spawn.pid, Request(line).args))] &&
                lastJ == old(lastJ) + 1
      ensures Classify(Request(line).args[0]) == Launch && Request(line).background && env.spawn.Forked? &&
              old(lastJ) + 1 == MAX_JOBS ==>
                jobs[..] == Compacted(old(jobs[..])[old(lastJ) := Occupied(Job(env.spawn.pid, Request(line).args))]) &&
                lastJ == |Live(jobs[..])|
    {
      var argv, background := ParseLine(line);
      var q := LookupBuiltin(argv[0]);
      if q < |BUILTINS| {
        var pidLine := Decimal(env.selfPid) + "\n";
        if q == 0 {
          r := Effect([pidLine], [], true);
        } else {
          var out, err := Cd(argv[1], env.dirs, env.home);
          r := Effect([pidLine] + out, err, false);
        }
      } else if argv[0] == "jobs" {
        var out := ListAndReap(env.finished);
        r := Effect(out, [], false);
      } else {
        r := Run(argv, background, env.spawn);
      }
    }
  }

  /** The first empty slot is the one before which every slot holds a job. */
  lemma FirstEmptyIs(s: seq<Slot>, k: nat)
    requires k <= |s| && (k < |s| ==> s[k] == Empty) && forall m :: 0 <= m < k ==> s[m].Occupied?
    ensures FirstEmpty(s) == k
  {
    if s != [] && s[0] != Empty {
      FirstEmptyIs(s[1..], k - 1);
    }
  }

  /** Reaping below the mark of a table with no job from the mark on reaps the whole table. */
  lemma ReapedAboveMark(s: seq<Slot>, mark: nat, finished: nat -> bool, t: seq<Slot>)
    requires mark <= |s| == |t| && forall k :: mark <= k < |s| ==> s[k] == Empty
    requires forall k :: 0 <= k < mark ==> t[k] == ReapSlot(s[k], finished)
    requires forall k :: mark <= k < |s| ==> t[k] == s[k]
    ensures t == Reaped(s, finished)
    ensures Live(t) == Running(Live(s), finished)
  {
    LiveReaped(s, finished);
  }
}
