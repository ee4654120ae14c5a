/**
 The background job table of the shell (the globals jobs[] and lastJ of
 main.c) on values: slots that hold a job or are empty (NULL), the
 jobs they hold, what the jobs listing reaps and prints, and the compaction
 that compressJobs is meant to perform.
 */
module JobTable {
  import opened Tokenizer

  /** Number of slots of the table. */
  const MAX_JOBS := 512

  /** An argument vector of a stored job: the shell only stores vectors with a command name. */
  type Argv = a: seq<string> | |a| >= 1 witness [""]

  /** A background job: its process id and its argument vector (argc is |argv|). */
  datatype Job = Job(pid: nat, argv: Argv)

  /** A table slot: NULL, or the address of a job record. */
  datatype Slot = Empty | Occupied(job: Job)

  /** The jobs the slots hold, in slot order. */
  function Live(s: seq<Slot>): (js: seq<Job>)
    ensures |js| <= |s|
  {
    if s == [] then []
    else Live(s[..|s| - 1]) + (if s[|s| - 1].Occupied? then [s[|s| - 1].job] else [])
  }

  /** A job is live exactly when some slot holds it. */
  lemma {:induction false} LiveMembers(s: seq<Slot>, j: Job)
    ensures j in Live(s) <==> Occupied(j) in s
  {
    if s != [] {
      var t := s[..|s| - 1];
      LiveMembers(t, j);
      assert s == t + [s[|s| - 1]];
    }
  }

  /** The live jobs of two tables side by side are those of each, in order. */
  lemma {:induction false} LiveAppend(s: seq<Slot>, t: seq<Slot>)
    ensures Live(s + t) == Live(s) + Live(t)
    decreases |t|
  {
    if t != [] {
      var t' := t[..|t| - 1];
      assert (s + t)[..|s + t| - 1] == s + t';
      assert (s + t)[|s + t| - 1] == t[|t| - 1];
      LiveAppend(s, t');
    } else {
      assert s + t == s;
    }
  }

  /** Empty slots hold no jobs. */
  lemma {:induction false} LiveOfEmpties(s: seq<Slot>)
    requires forall k :: 0 <= k < |s| ==> s[k] == Empty
    ensures Live(s) == []
  {
    if s != [] {
      LiveOfEmpties(s[..|s| - 1]);
    }
  }

  /** The jobs whose process the poll did not report as finished, in order. */
  function Running(js: seq<Job>, finished: nat -> bool): (r: seq<Job>)
    ensures |r| <= |js|
  {
    if js == [] then []
    else Running(js[..|js| - 1], finished) + (if finished(js[|js| - 1].pid) then [] else [js[|js| - 1]])
  }

  /** A job keeps running exactly when it was there and its process is not finished. */
  lemma {:induction false} RunningMembers(js: seq<Job>, finished: nat -> bool, j: Job)
    ensures j in Running(js, finished) <==> j in js && !finished(j.pid)
  {
    if js != [] {
      var t := js[..|js| - 1];
      RunningMembers(t, finished, j);
      assert js == t + [js[|js| - 1]];
    }
  }

  /** Polling again with the same outcome removes nothing more. */
  lemma {:induction false} RunningIdempotent(js: seq<Job>, finished: nat -> bool)
    ensures Running(Running(js, finished), finished) == Running(js, finished)
  {
    if js != [] {
      var t := js[..|js| - 1];
      var x := js[|js| - 1];
      RunningIdempotent(t, finished);
      var r := Running(t, finished);
      if !finished(x.pid) {
        assert Running(js, finished) == r + [x];
        assert (r + [x])[..|r|] == r;
        assert (r + [x])[|r|] == x;
        assert Running(r + [x], finished) == Running(r, finished) + [x];
      } else {
        assert Running(js, finished) == r + [] == r;
      }
    }
  }

  /** A slot after the poll: cleared when its process finished. */
  function ReapSlot(slot: Slot, finished: nat -> bool): (r: Slot)
    ensures r.Occupied? <==> slot.Occupied? && !finished(slot.job.pid)
    ensures r.Occupied? ==> r == slot
  {
    if slot.Occupied? && finished(slot.job.pid) then Empty else slot
  }

  /** The slots after the jobs listing: a slot whose process finished is cleared. */
  function Reaped(s: seq<Slot>, finished: nat -> bool): (r: seq<Slot>)
    ensures |r| == |s|
    ensures forall k :: 0 <= k < |s| ==>
              if s[k].Occupied? && !finished(s[k].job.pid) then r[k] == s[k] else r[k] == Empty
  {
    seq(|s|, k requires 0 <= k < |s| => ReapSlot(s[k], finished))
  }

  /** Reaping leaves exactly the running jobs, in their order. */
  lemma {:induction false} LiveReaped(s: seq<Slot>, finished: nat -> bool)
    ensures Live(Reaped(s, finished)) == Running(Live(s), finished)
  {
    if s != [] {
      var t := s[..|s| - 1];
      var x := s[|s| - 1];
      var r := Reaped(s, finished);
      assert r[..|s| - 1] == Reaped(t, finished);
      assert r[|s| - 1] == ReapSlot(x, finished);
      LiveReaped(t, finished);
      var js := Live(t);
      if x.Occupied? {
        assert Live(s) == js + [x.job];
        assert (js + [x.job])[..|js|] == js;
        assert (js + [x.job])[|js|] == x.job;
      } else {
        assert Live(s) == js + [] == js;
        assert Live(r) == Live(Reaped(t, finished)) + [] == Live(Reaped(t, finished));
      }
    }
  }

  /** The first empty slot, or |s| if there is none. */
  function FirstEmpty(s: seq<Slot>): (k: nat)
    ensures k <= |s| && (k < |s| ==> s[k] == Empty)
    ensures forall m :: 0 <= m < k ==> s[m].Occupied?
  {
    if s == [] || s[0] == Empty then 0 else 1 + FirstEmpty(s[1..])
  }

  /** The jobs as slots, one per slot from the start. */
  function Occupy(js: seq<Job>): (s: seq<Slot>)
    ensures |s| == |js| && forall k :: 0 <= k < |js| ==> s[k] == Occupied(js[k])
  {
    seq(|js|, k requires 0 <= k < |js| => Occupied(js[k]))
  }

  /** Slots holding jobs hold exactly those jobs. */
  lemma {:induction false} LiveOccupy(js: seq<Job>)
    ensures Live(Occupy(js)) == js
  {
    if js != [] {
      var t := js[..|js| - 1];
      assert Occupy(js)[..|js| - 1] == Occupy(t);
      LiveOccupy(t);
    }
  }

  /**
   The compaction compressJobs is meant to perform: the live jobs moved to the
   front in their order, the other slots emptied.
   */
  function Compacted(s: seq<Slot>): (r: seq<Slot>)
    ensures |r| == |s|
  {
    Occupy(Live(s)) + seq(|s| - |Live(s)|, _ => Empty)
  }

  /**
   Compaction keeps the table size and the live jobs in order, leaves no empty
   slot below the new mark |Live(s)| and no job at or above it.
   */
  lemma CompactedKeepsJobs(s: seq<Slot>)
    ensures |Compacted(s)| == |s| && Live(Compacted(s)) == Live(s)
    ensures forall k :: 0 <= k < |Live(s)| ==> Compacted(s)[k] == Occupied(Live(s)[k])
    ensures forall k :: |Live(s)| <= k < |s| ==> Compacted(s)[k] == Empty
  {
    LiveAppend(Occupy(Live(s)), seq(|s| - |Live(s)|, _ => Empty));
    LiveOccupy(Live(s));
    LiveOfEmpties(seq(|s| - |Live(s)|, _ => Empty));
  }

  /** Slots at and above the mark are empty, so the jobs below it are all the jobs. */
  lemma LiveBelowMark(s: seq<Slot>, mark: nat)
    requires mark <= |s| && forall k :: mark <= k < |s| ==> s[k] == Empty
    ensures Live(s[..mark]) == Live(s)
  {
    assert s == s[..mark] + s[mark..];
    LiveAppend(s[..mark], s[mark..]);
    LiveOfEmpties(s[mark..]);
  }

  /** A prefix of the slots holds at most as many jobs as the whole table. */
  lemma LivePrefixShorter(s: seq<Slot>, m: nat)
    requires m <= |s|
    ensures |Live(s[..m])| <= |Live(s)|
  {
    assert s == s[..m] + s[m..];
    LiveAppend(s[..m], s[m..]);
  }

  /** The jobs the listing shows for a mark: those in slots below it (none for a mark below 1). */
  function Visible(s: seq<Slot>, mark: int): (js: seq<Job>)
    requires mark <= |s|
    ensures mark <= 0 ==> js == []
    ensures mark == |s| ==> js == Live(s)
    ensures |js| <= |Live(s)|
  {
    if mark <= 0 then [] else LivePrefixShorter(s, mark); assert s[..|s|] == s; Live(s[..mark])
  }

  /**
   compressJobs as written (main.c:92-112) leaves every slot as it is and sets
   the mark to one below the first empty slot. Whenever the table holds a job,
   fewer jobs stay below that mark than the table holds: the job just below
   the first empty slot is left at the mark, where the next insertion
   overwrites it, and every job past the first empty slot is left above it.
   */
  lemma CompressAsWrittenLosesJob(s: seq<Slot>)
    requires Live(s) != []
    ensures |Visible(s, FirstEmpty(s) - 1)| < |Live(s)|
  {
    var f := FirstEmpty(s);
    if f >= 1 {
      PrefixMissesLast(s, f);
    }
  }

  /**
   compressJobs as written, run when the last slot is filled (main.c:307-308)
   on a table whose slot 0 was reaped: the mark becomes -1, so the listing
   shows no job although the table holds at least the one just stored.
   */
  lemma FillAsWrittenHidesJobs(s: seq<Slot>, job: Job)
    requires |s| == MAX_JOBS && s[0] == Empty
    ensures FirstEmpty(s[MAX_JOBS - 1 := Occupied(job)]) - 1 == -1
    ensures Visible(s[MAX_JOBS - 1 := Occupied(job)], -1) == []
    ensures job in Live(s[MAX_JOBS - 1 := Occupied(job)])
  {
    var t := s[MAX_JOBS - 1 := Occupied(job)];
    assert t[0] == Empty;
    LiveMembers(t, job);
  }

  /** The slots below m - 1 miss the job in slot m - 1. */
  lemma PrefixMissesLast(s: seq<Slot>, m: nat)
    requires 1 <= m <= |s| && s[m - 1].Occupied?
    ensures |Live(s[..m - 1])| < |Live(s)|
  {
    LivePrefixStep(s, m - 1);
    LivePrefixShorter(s, m);
  }

  /**
   The smallest case: [A, empty, B]. As written the slots stay and the mark
   becomes 0, so neither job is listed any more and the next insertion
   overwrites A; the intended compaction gives [A, B, empty] with mark 2.
   */
  lemma CompressExample(a: Job, b: Job)
    ensures FirstEmpty([Occupied(a), Empty, Occupied(b)]) - 1 == 0
    ensures Visible([Occupied(a), Empty, Occupied(b)], 0) == []
    ensures Compacted([Occupied(a), Empty, Occupied(b)]) == [Occupied(a), Occupied(b), Empty]
    ensures |Live([Occupied(a), Empty, Occupied(b)])| == 2
  {
    var s := [Occupied(a), Empty, Occupied(b)];
    assert s[1..] == [Empty, Occupied(b)];
    assert s[..2][..1] == [Occupied(a)];
    assert Live(s[..2]) == [a];
    assert Live(s) == [a, b];
  }

  /**
   Compaction preserves order: [A, empty, B, empty, C] becomes
   [A, B, C, empty, empty] with mark 3.
   */
  lemma CompactionOrderExample(a: Job, b: Job, c: Job)
    ensures Compacted([Occupied(a), Empty, Occupied(b), Empty, Occupied(c)])
         == [Occupied(a), Occupied(b), Occupied(c), Empty, Empty]
    ensures |Live([Occupied(a), Empty, Occupied(b), Empty, Occupied(c)])| == 3
  {
    var s := [Occupied(a), Empty, Occupied(b), Empty, Occupied(c)];
    assert s[..4] == [Occupied(a), Empty, Occupied(b), Empty];
    assert s[..4][..3] == [Occupied(a), Empty, Occupied(b)];
    assert s[..4][..3][..2] == [Occupied(a), Empty];
    assert s[..4][..3][..2][..1] == [Occupied(a)];
    assert Live([Occupied(a)]) == [a];
    assert Live([Occupied(a), Empty]) == [a];
    assert Live([Occupied(a), Empty, Occupied(b)]) == [a, b];
    assert Live([Occupied(a), Empty, Occupied(b), Empty]) == [a, b];
    assert Live(s) == [a, b, c];
  }

  /** Storing a job at the mark, with only empty slots from the mark on, appends it to the live jobs. */
  lemma LiveInsert(s: seq<Slot>, mark: nat, job: Job)
    requires mark < |s| && forall k :: mark <= k < |s| ==> s[k] == Empty
    ensures Live(s[mark := Occupied(job)]) == Live(s) + [job]
  {
    var t := s[mark := Occupied(job)];
    LiveBelowMark(s, mark);
    LiveBelowMark(t, mark + 1);
    assert t[..mark + 1] == s[..mark] + [Occupied(job)];
    LiveAppend(s[..mark], [Occupied(job)]);
    assert Live([Occupied(job)]) == Live([]) + [job];
  }

  /** One more slot of a prefix adds its job, if any. */
  lemma LivePrefixStep(s: seq<Slot>, a: nat)
    requires a < |s|
    ensures Live(s[..a + 1]) == Live(s[..a]) + (if s[a].Occupied? then [s[a].job] else [])
  {
    assert s[..a + 1][..a] == s[..a];
  }

  /** One more job is kept exactly when its process is not finished. */
  lemma RunningSnoc(js: seq<Job>, x: Job, finished: nat -> bool)
    ensures Running(js + [x], finished) == Running(js, finished) + (if finished(x.pid) then [] else [x])
  {
    assert (js + [x])[..|js|] == js;
  }

  /** One more slot of a prefix adds the line of its job when that job is running. */
  lemma ListingStep(s: seq<Slot>, a: nat, finished: nat -> bool)
    requires a < |s|
    ensures Listing(Running(Live(s[..a + 1]), finished))
         == Listing(Running(Live(s[..a]), finished))
            + (if s[a].Occupied? && !finished(s[a].job.pid) then [JobLine(s[a].job)] else [])
  {
    LivePrefixStep(s, a);
    if s[a].Occupied? {
      ListingRunningSnoc(Live(s[..a]), s[a].job, finished);
    } else {
      assert Live(s[..a + 1]) == Live(s[..a]);
    }
  }

  /** One more job adds its line to the listing exactly when it is running. */
  lemma ListingRunningSnoc(js: seq<Job>, x: Job, finished: nat -> bool)
    ensures Listing(Running(js + [x], finished))
         == Listing(Running(js, finished)) + (if finished(x.pid) then [] else [JobLine(x)])
  {
    RunningSnoc(js, x, finished);
    if finished(x.pid) {
      assert Running(js + [x], finished) == Running(js, finished);
    } else {
      ListingSnoc(Running(js, finished), x);
    }
  }

  /** One more job, one more slot from the start. */
  lemma OccupySnoc(js: seq<Job>, x: Job)
    ensures Occupy(js + [x]) == Occupy(js) + [Occupied(x)]
  {
  }

  // ---------------------------------------------------------------------------
  // What the listing prints

  /** The decimal digits of n, as printf's %d writes a non-negative number. */
  function Decimal(n: nat): (ds: string)
    ensures ds != [] && forall k :: 0 <= k < |ds| ==> '0' <= ds[k] <= '9'
  {
    if n < 10 then [Digit(n)] else Decimal(n / 10) + [Digit(n % 10)]
  }

  /** The character of a digit. */
  function Digit(d: nat): (ch: char)
    requires d < 10
    ensures '0' <= ch <= '9'
  {
    ['0', '1', '2', '3', '4', '5', '6', '7', '8', '9'][d]
  }

  /** The number a string of decimal digits denotes. */
  function Value(ds: string): nat
    requires forall k :: 0 <= k < |ds| ==> '0' <= ds[k] <= '9'
  {
    if ds == [] then 0 else 10 * Value(ds[..|ds| - 1]) + (ds[|ds| - 1] as int - '0' as int)
  }

  /** The printed digits denote the number printed. */
  lemma {:induction false} DecimalValue(n: nat)
    ensures Value(Decimal(n)) == n
  {
    assert forall d :: 0 <= d < 10 ==> Digit(d) as int - '0' as int == d;
    if n >= 10 {
      DecimalValue(n / 10);
      var ds := Decimal(n);
      assert ds[..|ds| - 1] == Decimal(n / 10);
    }
  }

  /** A printed number is a plain word: it reads back as one argument. */
  lemma DecimalPlain(n: nat)
    ensures PlainWord(Decimal(n))
  {
  }

  /** The line the listing prints for a running job: pid, then the arguments, space-separated. */
  function JobLine(job: Job): (l: string)
    ensures |l| > |Decimal(job.pid)| + 1 && l[|l| - 1] == '\n'
  {
    Decimal(job.pid) + " " + Unwords(job.argv) + "\n"
  }

  /** The lines printed for the given jobs, in order. */
  function Listing(js: seq<Job>): (out: seq<string>)
    ensures |out| == |js| && forall k :: 0 <= k < |js| ==> out[k] == JobLine(js[k])
  {
    seq(|js|, k requires 0 <= k < |js| => JobLine(js[k]))
  }

  /** One more job, one more line at the end. */
  lemma ListingSnoc(js: seq<Job>, x: Job)
    ensures Listing(js + [x]) == Listing(js) + [JobLine(x)]
  {
  }

  /**
   The printing loop of the listing (main.c:245-252): the pid and a space,
   each argument but the last followed by a space, then the last argument and
   a newline.
   */
  method FormatJob(job: Job) returns (line: string)
    ensures line == JobLine(job)
  {
    var argv := job.argv;
    line := Decimal(job.pid) + " ";
    var j := 0;
    while j < |argv| - 1
      invariant 0 <= j <= |argv| - 1
      invariant line + Unwords(argv[j..]) == Decimal(job.pid) + " " + Unwords(argv)
    {
      assert argv[j..][1..] == argv[j + 1..];
      line := line + argv[j] + " ";
      j := j + 1;
    }
    assert argv[j..] == [argv[j]];
    line := line + argv[|argv| - 1] + "\n";
  }

  /**
   A printed job line reads back, by the shell's own tokenizer, as the pid
   followed by the arguments, when every argument is a plain word.
   */
  lemma JobLineReadsBack(job: Job)
    requires forall k :: 0 <= k < |job.argv| ==> PlainWord(job.argv[k])
    ensures Tokens(JobLine(job)[..|JobLine(job)| - 1] + [SENTINEL]) == [Decimal(job.pid)] + job.argv
  {
    assert JobLine(job)[..|JobLine(job)| - 1] == Decimal(job.pid) + " " + Unwords(job.argv);
    var ws := [Decimal(job.pid)] + job.argv;
    DecimalPlain(job.pid);
    assert ws[1..] == job.argv;
    assert Unwords(ws) == Decimal(job.pid) + " " + Unwords(job.argv);
    ForegroundLine(ws);
  }
}
