/**
 * The job list of Project/TshLab/tsh.c: `MAXJOBS` slots of (pid, jid,
 * state, command line), a free slot having pid 0, the counter `nextjid`
 * that numbers new jobs, the lookups by pid and by jid, and the state
 * change the `fg` and `bg` builtins make to a stopped job.
 *
 * The global `job_list` and `nextjid` travel together as a `Jobs` value;
 * a function that writes them returns the new value. A pointer into the
 * list is the index of its slot, NULL is `None`.
 */
module TshJobs {
  import opened Outcomes
  import opened CStr
  import opened TshParse

  const MAXJOBS: nat := 16

  /** UNDEF, FG, BG and ST. */
  datatype JobState = Undef | Fg | Bg | St

  datatype Job = Job(pid: int, jid: int, state: JobState, cmdline: string)

  datatype Jobs = Jobs(slots: seq<Job>, nextjid: int)

  /** What `clearjob` leaves in a slot: pid and jid 0, UNDEF, an empty command line. */
  const CLEARED := Job(0, 0, Undef, "")

  /**
   * The shape every job list keeps: `MAXJOBS` slots, a free slot (pid 0)
   * cleared, a used slot with a positive pid and a positive jid, and
   * `nextjid` positive.
   */
  predicate Wf(js: Jobs)
  {
    && |js.slots| == MAXJOBS && js.nextjid >= 1
    && forall i :: 0 <= i < |js.slots| ==>
        if js.slots[i].pid == 0 then js.slots[i] == CLEARED else js.slots[i].pid >= 1 && js.slots[i].jid >= 1
  }

  /** No two used slots share a jid (a free slot has jid 0). */
  predicate DistinctJids(slots: seq<Job>)
  {
    forall i, j :: 0 <= i < j < |slots| && slots[i].jid != 0 ==> slots[i].jid != slots[j].jid
  }

  /** `nextjid` lies above every jid in use. */
  predicate FreshNext(js: Jobs)
  {
    forall i :: 0 <= i < |js.slots| ==> js.slots[i].jid < js.nextjid
  }

  /** What a slot is searched for. */
  datatype Key = Free | ByPid(pid: int) | ByJid(jid: int) | Foreground

  predicate Hits(j: Job, k: Key)
  {
    match k
    case Free => j.pid == 0
    case ByPid(p) => j.pid == p
    case ByJid(n) => j.jid == n
    case Foreground => j.state == Fg
  }

  /** The `for (i = 0; i < MAXJOBS; i++) if (...)` search: the first slot from `i` on that matches. */
  function First(slots: seq<Job>, k: Key, i: nat): (r: Option<nat>)
    requires i <= |slots|
    ensures r.Some? ==> i <= r.value < |slots| && Hits(slots[r.value], k)
    ensures r.Some? ==> forall j :: i <= j < r.value ==> !Hits(slots[j], k)
    ensures r.None? <==> forall j :: i <= j < |slots| ==> !Hits(slots[j], k)
    decreases |slots| - i
  {
    if i == |slots| then None
    else if Hits(slots[i], k) then Some(i)
    else First(slots, k, i + 1)
  }

  /** Slot `i` is the first that matches. */
  predicate FirstAt(slots: seq<Job>, k: Key, i: nat)
  {
    i < |slots| && Hits(slots[i], k) && forall j :: 0 <= j < i ==> !Hits(slots[j], k)
  }

  /** `initjobs`: every slot cleared; `nextjid` is not touched. */
  function InitJobs(js: Jobs): (r: Jobs)
    requires js.nextjid >= 1
    ensures Wf(r) && FreshNext(r) && DistinctJids(r.slots) && r.nextjid == js.nextjid
    ensures forall i :: 0 <= i < |r.slots| ==> r.slots[i].pid == 0
  {
    Jobs(seq(MAXJOBS, _ => CLEARED), js.nextjid)
  }

  /** An empty list answers every lookup with NULL and has no foreground job. */
  lemma InitJobsEmpty(js: Jobs, pid: int, jid: int)
    requires js.nextjid >= 1
    ensures GetJobPid(InitJobs(js).slots, pid).None? && GetJobJid(InitJobs(js).slots, jid).None?
    ensures FgPid(InitJobs(js).slots) == 0 && Pid2Jid(InitJobs(js).slots, pid) == 0
  {
  }

  /** `maxjid`: the largest jid in the list, 0 when every jid is 0 or below. */
  function MaxJid(slots: seq<Job>): (m: int)
    ensures m >= 0 && forall i :: 0 <= i < |slots| ==> slots[i].jid <= m
    ensures m == 0 || exists i :: 0 <= i < |slots| && slots[i].jid == m
  {
    if slots == [] then 0
    else
      var rest := MaxJid(slots[1..]);
      assert forall i :: 1 <= i < |slots| ==> slots[i].jid == slots[1..][i - 1].jid;
      if slots[0].jid > rest then slots[0].jid else rest
  }

  /** A new job in a free slot. */
  function Added(slots: seq<Job>, i: nat, pid: int, jid: int, state: JobState, cmdline: string): seq<Job>
    requires i < |slots|
  {
    slots[i := Job(pid, jid, state, cmdline)]
  }

  /**
   * `addjob` as written: a pid below 1 or a full list is refused (0);
   * otherwise the first free slot gets the pid, the state, the command
   * line and `nextjid` as its jid, and `nextjid` steps on, back to 1 once
   * it passes `MAXJOBS` (1).
   */
  function AddJobAsWritten(js: Jobs, pid: int, state: JobState, cmdline: string): (r: (Jobs, int))
    requires |js.slots| == MAXJOBS && |cmdline| < MAXLINE
    ensures r.1 == 1 <==> pid >= 1 && exists i :: 0 <= i < |js.slots| && js.slots[i].pid == 0
    ensures r.1 == 0 ==> r.0 == js
    ensures r.1 == 1 ==>
      && r.0.nextjid == (if js.nextjid + 1 > MAXJOBS then 1 else js.nextjid + 1)
      && exists i :: FirstAt(js.slots, Free, i) && r.0.slots == Added(js.slots, i, pid, js.nextjid, state, cmdline)
  {
    if pid < 1 then (js, 0)
    else
      match First(js.slots, Free, 0)
      case None => (js, 0)
      case Some(i) =>
        var next := js.nextjid + 1;
        (Jobs(Added(js.slots, i, pid, js.nextjid, state, cmdline), if next > MAXJOBS then 1 else next), 1)
  }

  /**
   * `addjob` without the wrap of `nextjid`: the new jid is `nextjid`,
   * which lies above every jid in use, and `nextjid` moves one past it.
   * Jids stay distinct, which the lookups by jid rely on.
   */
  function AddJob(js: Jobs, pid: int, state: JobState, cmdline: string): (r: (Jobs, int))
    requires |js.slots| == MAXJOBS && |cmdline| < MAXLINE
    ensures r.1 == 1 <==> pid >= 1 && exists i :: 0 <= i < |js.slots| && js.slots[i].pid == 0
    ensures r.1 == 0 ==> r.0 == js
    ensures r.1 == 1 ==>
      && r.0.nextjid == js.nextjid + 1
      && exists i :: FirstAt(js.slots, Free, i) && r.0.slots == Added(js.slots, i, pid, js.nextjid, state, cmdline)
  {
    if pid < 1 then (js, 0)
    else
      match First(js.slots, Free, 0)
      case None => (js, 0)
      case Some(i) => (Jobs(Added(js.slots, i, pid, js.nextjid, state, cmdline), js.nextjid + 1), 1)
  }

  /**
   * `deletejob`: a pid below 1 or one not in the list changes nothing
   * (0); otherwise the first slot holding it is cleared and `nextjid`
   * becomes one past the largest jid left (1).
   */
  function DeleteJob(js: Jobs, pid: int): (r: (Jobs, int))
    requires |js.slots| == MAXJOBS
    ensures r.1 == 1 <==> pid >= 1 && exists i :: 0 <= i < |js.slots| && js.slots[i].pid == pid
    ensures r.1 == 0 ==> r.0 == js
    ensures r.1 == 1 ==>
      && (exists i: nat :: FirstAt(js.slots, ByPid(pid), i) && r.0.slots == js.slots[i := CLEARED])
      && FreshNext(r.0) && (r.0.nextjid == 1 || exists i :: 0 <= i < |r.0.slots| && r.0.slots[i].jid == r.0.nextjid - 1)
  {
    if pid < 1 then (js, 0)
    else
      match First(js.slots, ByPid(pid), 0)
      case None => (js, 0)
      case Some(i) =>
        var slots := js.slots[i := CLEARED];
        assert FirstAt(js.slots, ByPid(pid), i);
        (Jobs(slots, MaxJid(slots) + 1), 1)
  }

  /** `fgpid`: the pid of the first job in the foreground, 0 when there is none. */
  function FgPid(slots: seq<Job>): (p: int)
    ensures (forall i :: 0 <= i < |slots| ==> slots[i].state != Fg) ==> p == 0
    ensures forall i :: 0 <= i < |slots| && slots[i].state == Fg && (forall j :: 0 <= j < i ==> slots[j].state != Fg) ==>
      p == slots[i].pid
  {
    match First(slots, Foreground, 0)
    case None => 0
    case Some(i) => slots[i].pid
  }

  /** `getjobpid`: the first slot holding `pid`, NULL for a pid below 1 or one not in the list. */
  function GetJobPid(slots: seq<Job>, pid: int): (r: Option<nat>)
    ensures r.Some? ==> pid >= 1 && FirstAt(slots, ByPid(pid), r.value)
    ensures r.None? <==> pid < 1 || forall j :: 0 <= j < |slots| ==> slots[j].pid != pid
  {
    if pid < 1 then None else First(slots, ByPid(pid), 0)
  }

  /** `getjobjid`: the first slot holding `jid`, NULL for a jid below 1 or one not in the list. */
  function GetJobJid(slots: seq<Job>, jid: int): (r: Option<nat>)
    ensures r.Some? ==> jid >= 1 && FirstAt(slots, ByJid(jid), r.value)
    ensures r.None? <==> jid < 1 || forall j :: 0 <= j < |slots| ==> slots[j].jid != jid
  {
    if jid < 1 then None else First(slots, ByJid(jid), 0)
  }

  /** `pid2jid`: the jid of the first slot holding `pid`, 0 for a pid below 1 or one not in the list. */
  function Pid2Jid(slots: seq<Job>, pid: int): (jid: int)
    ensures (pid < 1 || forall j :: 0 <= j < |slots| ==> slots[j].pid != pid) ==> jid == 0
    ensures forall i :: 0 <= i < |slots| && slots[i].pid == pid && pid >= 1 && (forall j :: 0 <= j < i ==> slots[j].pid != pid) ==>
      jid == slots[i].jid
  {
    match GetJobPid(slots, pid)
    case None => 0
    case Some(i) => slots[i].jid
  }

  /**
   * The `fg` and `bg` cases of `builtin_cmd_switch`. Without a second
   * argument nothing happens. With `%n`, the job with jid `atoi(n)` is
   * looked up; a stopped job is continued (the `SIGCONT` is left out) and
   * put in the foreground or the background, any other job stays as it
   * is. A jid with no job dereferences NULL (`Fault`). `bg` then prints
   * the job through another lookup: without a `%` the jid it prints is
   * an uninitialised variable, so that case is a `Fault` too.
   */
  function FgBg(js: Jobs, which: Builtin, argv: seq<string>): (r: Outcome<Jobs>)
    requires which == BuiltinFg || which == BuiltinBg
    ensures |argv| < 2 ==> r == Done(js)
    ensures |argv| >= 2 && !Percent(argv[1]) ==> r == if which == BuiltinFg then Done(js) else Fault
    ensures |argv| >= 2 && Percent(argv[1]) ==>
      (r.Fault? <==> forall j :: 0 <= j < |js.slots| ==> js.slots[j].jid != Atoi(argv[1][1..]) || Atoi(argv[1][1..]) < 1)
    ensures r.Done? ==> |r.value.slots| == |js.slots| && r.value.nextjid == js.nextjid
    ensures r.Done? ==> forall i :: 0 <= i < |js.slots| ==>
      && r.value.slots[i].pid == js.slots[i].pid && r.value.slots[i].jid == js.slots[i].jid
      && r.value.slots[i].cmdline == js.slots[i].cmdline
      && (r.value.slots[i].state != js.slots[i].state ==>
           js.slots[i].state == St && r.value.slots[i].state == (if which == BuiltinFg then Fg else Bg))
  {
    if |argv| < 2 then Done(js)
    else if !Percent(argv[1]) then
      if which == BuiltinFg then Done(js) else Fault
    else
      match GetJobJid(js.slots, Atoi(argv[1][1..]))
      case None => Fault
      case Some(i) =>
        if js.slots[i].state == St then
          Done(js.(slots := js.slots[i := js.slots[i].(state := if which == BuiltinFg then Fg else Bg)]))
        else Done(js)
  }

  /** The argument starts with '%'. */
  predicate Percent(arg: string)
  {
    arg != [] && arg[0] == '%'
  }

  /** The invariant of the list: its shape, `nextjid` above every jid, and distinct jids. */
  predicate Inv(js: Jobs)
  {
    Wf(js) && FreshNext(js) && DistinctJids(js.slots)
  }

  /** `addjob` keeps the invariant. */
  lemma AddJobInv(js: Jobs, pid: int, state: JobState, cmdline: string)
    requires Inv(js) && |cmdline| < MAXLINE
    ensures Inv(AddJob(js, pid, state, cmdline).0)
  {
    var r := AddJob(js, pid, state, cmdline);
    if r.1 == 1 {
      var i: nat :| FirstAt(js.slots, Free, i) && r.0.slots == Added(js.slots, i, pid, js.nextjid, state, cmdline);
      assert forall j :: 0 <= j < |r.0.slots| && j != i ==> r.0.slots[j] == js.slots[j];
      assert r.0.slots[i].jid == js.nextjid;
    }
  }

  /** `deletejob` keeps the invariant. */
  lemma DeleteJobInv(js: Jobs, pid: int)
    requires Inv(js)
    ensures Inv(DeleteJob(js, pid).0)
  {
    var r := DeleteJob(js, pid);
    if r.1 == 1 {
      var i: nat :| FirstAt(js.slots, ByPid(pid), i) && r.0.slots == js.slots[i := CLEARED];
      assert forall j :: 0 <= j < |r.0.slots| && j != i ==> r.0.slots[j] == js.slots[j];
    }
  }

  /** `fg` and `bg` keep the invariant. */
  lemma FgBgInv(js: Jobs, which: Builtin, argv: seq<string>)
    requires Inv(js) && (which == BuiltinFg || which == BuiltinBg)
    ensures FgBg(js, which, argv).Done? ==> Inv(FgBg(js, which, argv).value)
  {
  }

  /** After `addjob` of a new pid, both lookups find the new job, under the jid `nextjid` had. */
  lemma LookupAfterAdd(js: Jobs, pid: int, state: JobState, cmdline: string)
    requires Inv(js) && |cmdline| < MAXLINE && pid >= 1
    requires forall j :: 0 <= j < |js.slots| ==> js.slots[j].pid != pid
    requires exists i :: 0 <= i < |js.slots| && js.slots[i].pid == 0
    ensures var r := AddJob(js, pid, state, cmdline).0;
      && GetJobPid(r.slots, pid).Some?
      && GetJobPid(r.slots, pid) == GetJobJid(r.slots, js.nextjid)
      && r.slots[GetJobPid(r.slots, pid).value] == Job(pid, js.nextjid, state, cmdline)
      && Pid2Jid(r.slots, pid) == js.nextjid
  {
    var r := AddJob(js, pid, state, cmdline).0;
    var i: nat :| FirstAt(js.slots, Free, i) && r.slots == Added(js.slots, i, pid, js.nextjid, state, cmdline);
    assert forall j :: 0 <= j < |r.slots| && j != i ==> r.slots[j] == js.slots[j];
    assert FirstAt(r.slots, ByPid(pid), i);
    assert FirstAt(r.slots, ByJid(js.nextjid), i);
  }

  /**
   * Adding a new pid and deleting it again gives back the slots, with
   * `nextjid` one past the largest jid.
   */
  lemma AddThenDelete(js: Jobs, pid: int, state: JobState, cmdline: string)
    requires Inv(js) && |cmdline| < MAXLINE && pid >= 1
    requires forall j :: 0 <= j < |js.slots| ==> js.slots[j].pid != pid
    requires exists i :: 0 <= i < |js.slots| && js.slots[i].pid == 0
    ensures var a := AddJob(js, pid, state, cmdline).0;
      DeleteJob(a, pid) == (Jobs(js.slots, MaxJid(js.slots) + 1), 1)
  {
    var i := FreeSlot(js);
    AddAt(js, pid, state, cmdline, i);
    DeleteAdded(js, pid, state, cmdline, i);
  }

  /** The first free slot of a list that has one. */
  lemma FreeSlot(js: Jobs) returns (i: nat)
    requires exists i :: 0 <= i < |js.slots| && js.slots[i].pid == 0
    ensures First(js.slots, Free, 0) == Some(i)
  {
    var k :| 0 <= k < |js.slots| && js.slots[k].pid == 0;
    assert Hits(js.slots[k], Free);
    i := First(js.slots, Free, 0).value;
  }

  /** Deleting the pid just put in free slot i clears that slot again. */
  lemma DeleteAdded(js: Jobs, pid: int, state: JobState, cmdline: string, i: nat)
    requires Wf(js) && pid >= 1 && i < |js.slots| && js.slots[i].pid == 0
    requires forall j :: 0 <= j < |js.slots| ==> js.slots[j].pid != pid
    ensures DeleteJob(Jobs(Added(js.slots, i, pid, js.nextjid, state, cmdline), js.nextjid + 1), pid)
      == (Jobs(js.slots, MaxJid(js.slots) + 1), 1)
  {
    var slots := Added(js.slots, i, pid, js.nextjid, state, cmdline);
    assert First(slots, ByPid(pid), 0) == Some(i) && slots[i := CLEARED] == js.slots by {
      assert forall j :: 0 <= j < |slots| && j != i ==> slots[j] == js.slots[j];
      assert FirstAt(slots, ByPid(pid), i);
      FirstIs(slots, ByPid(pid), i);
    }
    DeleteAt(Jobs(slots, js.nextjid + 1), pid, i);
  }

  /** `addjob` once the first free slot is known. */
  lemma AddAt(js: Jobs, pid: int, state: JobState, cmdline: string, i: nat)
    requires |js.slots| == MAXJOBS && |cmdline| < MAXLINE && pid >= 1 && First(js.slots, Free, 0) == Some(i)
    ensures AddJob(js, pid, state, cmdline) == (Jobs(Added(js.slots, i, pid, js.nextjid, state, cmdline), js.nextjid + 1), 1)
  {
  }

  /** `deletejob` once the pid's first slot is known. */
  lemma DeleteAt(js: Jobs, pid: int, i: nat)
    requires |js.slots| == MAXJOBS && pid >= 1 && First(js.slots, ByPid(pid), 0) == Some(i)
    ensures DeleteJob(js, pid) == (Jobs(js.slots[i := CLEARED], MaxJid(js.slots[i := CLEARED]) + 1), 1)
  {
  }

  lemma FirstIs(slots: seq<Job>, k: Key, i: nat)
    requires FirstAt(slots, k, i)
    ensures First(slots, k, 0) == Some(i)
  {
  }

  /** After `deletejob`, a pid that was in one slot only is no longer found. */
  lemma DeleteForgets(js: Jobs, pid: int)
    requires Wf(js) && pid >= 1
    requires forall i, j :: 0 <= i < j < |js.slots| && js.slots[i].pid == pid ==> js.slots[j].pid != pid
    ensures GetJobPid(DeleteJob(js, pid).0.slots, pid).None?
  {
    var r := DeleteJob(js, pid);
    if r.1 == 1 {
      var i: nat :| FirstAt(js.slots, ByPid(pid), i) && r.0.slots == js.slots[i := CLEARED];
      assert forall j :: 0 <= j < |r.0.slots| && j != i ==> r.0.slots[j] == js.slots[j];
    }
  }

  /**
   * `fg %n` on a stopped job: it moves to the foreground, and with no
   * other job there `fgpid` now answers its pid.
   */
  lemma StoppedToFg(js: Jobs, n: nat)
    requires Inv(js) && n >= 1
    requires forall j :: 0 <= j < |js.slots| ==> js.slots[j].state != Fg
    requires exists i :: 0 <= i < |js.slots| && js.slots[i].jid == n && js.slots[i].state == St
    ensures FgBg(js, BuiltinFg, ["fg", "%" + Decimal(n)]).Done?
    ensures FgPid(FgBg(js, BuiltinFg, ["fg", "%" + Decimal(n)]).value.slots) == js.slots[GetJobJid(js.slots, n).value].pid
  {
    PercentJid(n);
    var i :| 0 <= i < |js.slots| && js.slots[i].jid == n && js.slots[i].state == St;
    assert GetJobJid(js.slots, n) == Some(i);
    var r := FgBg(js, BuiltinFg, ["fg", "%" + Decimal(n)]).value;
    assert FirstAt(r.slots, Foreground, i);
  }

  /** `bg %n` on a stopped job: it runs in the background and the foreground is left alone. */
  lemma StoppedToBg(js: Jobs, n: nat)
    requires Inv(js) && n >= 1
    requires exists i :: 0 <= i < |js.slots| && js.slots[i].jid == n && js.slots[i].state == St
    ensures FgBg(js, BuiltinBg, ["bg", "%" + Decimal(n)]).Done?
    ensures var r := FgBg(js, BuiltinBg, ["bg", "%" + Decimal(n)]).value;
      r.slots[GetJobJid(js.slots, n).value].state == Bg && FgPid(r.slots) == FgPid(js.slots)
  {
    PercentJid(n);
    var i :| 0 <= i < |js.slots| && js.slots[i].jid == n && js.slots[i].state == St;
    assert GetJobJid(js.slots, n) == Some(i);
    var r := FgBg(js, BuiltinBg, ["bg", "%" + Decimal(n)]).value;
    assert First(r.slots, Foreground, 0) == First(js.slots, Foreground, 0) by {
      FirstSame(js.slots, r.slots, Foreground, 0);
    }
  }

  /** `%n` reads back as the jid `n`. */
  lemma PercentJid(n: nat)
    ensures Percent("%" + Decimal(n)) && Atoi(("%" + Decimal(n))[1..]) == n
  {
    assert ("%" + Decimal(n))[1..] == Decimal(n) + [];
    AtoiDecimal(n, []);
  }

  /** Two lists that agree on which slots match give the same search. */
  lemma {:induction false} FirstSame(a: seq<Job>, b: seq<Job>, k: Key, i: nat)
    requires |a| == |b| && i <= |a|
    requires forall j :: i <= j < |a| ==> Hits(a[j], k) == Hits(b[j], k)
    ensures First(a, k, i) == First(b, k, i)
    decreases |a| - i
  {
    if i < |a| {
      FirstSame(a, b, k, i + 1);
    }
  }

  /**
   * `addjob` as written can hand out a jid still in use: with `nextjid`
   * at `MAXJOBS`, jid 1 taken and two free slots, the first new job gets
   * jid `MAXJOBS`, `nextjid` wraps to 1, and the second new job gets jid
   * 1 as well.
   */
  lemma WrapReusesJid(js: Jobs, p1: int, p2: int, state: JobState, cmdline: string)
    requires Inv(js) && js.nextjid == MAXJOBS && |cmdline| < MAXLINE && p1 >= 1 && p2 >= 1
    requires exists k :: 0 <= k < |js.slots| && js.slots[k].jid == 1
    requires exists a, b :: 0 <= a < b < |js.slots| && js.slots[a].pid == 0 && js.slots[b].pid == 0
    ensures var r1 := AddJobAsWritten(js, p1, state, cmdline).0;
      !DistinctJids(AddJobAsWritten(r1, p2, state, cmdline).0.slots)
  {
    var k :| 0 <= k < |js.slots| && js.slots[k].jid == 1;
    var a, b :| 0 <= a < b < |js.slots| && js.slots[a].pid == 0 && js.slots[b].pid == 0;
    var r1 := AddJobAsWritten(js, p1, state, cmdline).0;
    var i1 := AddedAt(js, p1, state, cmdline);
    var c := if i1 == a then b else a;
    assert r1.slots[c].pid == 0;
    var r2 := AddJobAsWritten(r1, p2, state, cmdline).0;
    var i2 := AddedAt(r1, p2, state, cmdline);
    assert r2.slots[k].jid == 1 && r2.slots[i2].jid == 1 && k != i2;
    if k < i2 {
      assert !(r2.slots[k].jid != 0 ==> r2.slots[k].jid != r2.slots[i2].jid);
    } else {
      assert !(r2.slots[i2].jid != 0 ==> r2.slots[i2].jid != r2.slots[k].jid);
    }
  }

  /** Where `addjob` as written put a new job, and that nothing else moved. */
  lemma AddedAt(js: Jobs, pid: int, state: JobState, cmdline: string) returns (i: nat)
    requires |js.slots| == MAXJOBS && |cmdline| < MAXLINE && pid >= 1
    requires exists j :: 0 <= j < |js.slots| && js.slots[j].pid == 0
    ensures var r := AddJobAsWritten(js, pid, state, cmdline).0;
      && i < |js.slots| && js.slots[i].pid == 0 && |r.slots| == |js.slots|
      && r.slots[i] == Job(pid, js.nextjid, state, cmdline)
      && (forall j :: 0 <= j < |js.slots| && j != i ==> r.slots[j] == js.slots[j])
      && r.nextjid == if js.nextjid + 1 > MAXJOBS then 1 else js.nextjid + 1
  {
    var r := AddJobAsWritten(js, pid, state, cmdline).0;
    i :| FirstAt(js.slots, Free, i) && r.slots == Added(js.slots, i, pid, js.nextjid, state, cmdline);
  }
}
