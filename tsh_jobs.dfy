/**
 * The tiny shell's job list: a fixed table of MAXJOBS slots and the global
 * counter nextjid that supplies the next job ID.  A slot whose pid is 0 is free.
 */
module ShellJobs {
  import opened Opt

  const MAXJOBS: nat := 16

  datatype JobState = Undef | Fg | Bg | St

  datatype Job = Job(pid: int, jid: int, state: JobState, cmdline: string)

  /** What clearjob leaves in a slot. */
  const EmptyJob: Job := Job(0, 0, Undef, "")

  /** The largest jid in `s`, or 0 when no jid is positive (maxjid's running maximum starts at 0). */
  function MaxJidOf(s: seq<Job>): int
  {
    if s == [] then 0
    else
      var rest := MaxJidOf(s[..|s| - 1]);
      if s[|s| - 1].jid > rest then s[|s| - 1].jid else rest
  }

  /** MaxJidOf is the maximum of 0 and all jids, and is attained unless it is 0. */
  lemma {:induction false} MaxJidOfIsMax(s: seq<Job>)
    ensures MaxJidOf(s) >= 0
    ensures forall i :: 0 <= i < |s| ==> s[i].jid <= MaxJidOf(s)
    ensures MaxJidOf(s) == 0 || exists i :: 0 <= i < |s| && s[i].jid == MaxJidOf(s)
  {
    if s != [] {
      var t := s[..|s| - 1];
      MaxJidOfIsMax(t);
      assert forall i :: 0 <= i < |t| ==> s[i] == t[i];
      if MaxJidOf(t) != 0 && s[|s| - 1].jid <= MaxJidOf(t) {
        var i :| 0 <= i < |t| && t[i].jid == MaxJidOf(t);
        assert s[i].jid == MaxJidOf(s);
      }
    }
  }

  /** A table of cleared slots has no job ID above 0. */
  lemma {:induction false} MaxJidOfCleared(s: seq<Job>)
    requires forall i :: 0 <= i < |s| ==> s[i] == EmptyJob
    ensures MaxJidOf(s) == 0
  {
    if s != [] {
      MaxJidOfCleared(s[..|s| - 1]);
    }
  }

  /** The value of nextjid after addjob hands out `n`: one more, wrapping to 1 once above MAXJOBS. */
  function Advance(n: int): (r: int)
    ensures r == n + 1 || r == 1
    ensures r <= MAXJOBS ==> r == n + 1 || n >= MAXJOBS
  {
    if n + 1 > MAXJOBS then 1 else n + 1
  }

  class JobTable {
    const jobs: array<Job>
    var nextjid: int

    ghost predicate Valid()
      reads this
    {
      jobs.Length == MAXJOBS
    }

    /** The zero-initialised static table and `int nextjid = 1`. */
    constructor ()
      ensures Valid() && fresh(jobs) && nextjid == 1
      ensures forall i :: 0 <= i < MAXJOBS ==> jobs[i] == EmptyJob
    {
      jobs := new Job[MAXJOBS](_ => EmptyJob);
      nextjid := 1;
    }

    /** clearjob(&job_list[i]) */
    method ClearJob(i: nat)
      requires Valid() && i < MAXJOBS
      modifies jobs
      ensures jobs[..] == old(jobs[..])[i := EmptyJob]
    {
      jobs[i] := EmptyJob;
    }

    /** initjobs: clear every slot; nextjid is not touched. */
    method InitJobs()
      requires Valid()
      modifies jobs
      ensures forall i :: 0 <= i < MAXJOBS ==> jobs[i] == EmptyJob
    {
      var i := 0;
      while i < MAXJOBS
        invariant 0 <= i <= MAXJOBS
        invariant forall k :: 0 <= k < i ==> jobs[k] == EmptyJob
      {
        ClearJob(i);
        i := i + 1;
      }
    }

    /** maxjid: the largest jid in the table, or 0. */
    method MaxJid() returns (max: int)
      requires Valid()
      ensures max == MaxJidOf(jobs[..])
      ensures max >= 0 && forall i :: 0 <= i < MAXJOBS ==> jobs[i].jid <= max
      ensures max == 0 || exists i :: 0 <= i < MAXJOBS && jobs[i].jid == max
    {
      max := 0;
      var i := 0;
      while i < MAXJOBS
        invariant 0 <= i <= MAXJOBS
        invariant max == MaxJidOf(jobs[..i])
      {
        assert jobs[..i + 1][..i] == jobs[..i];
        if jobs[i].jid > max {
          max := jobs[i].jid;
        }
        i := i + 1;
      }
      assert jobs[..MAXJOBS] == jobs[..];
      MaxJidOfIsMax(jobs[..]);
    }

    /**
     * addjob: refuse a pid below 1; otherwise fill the first slot whose pid is 0,
     * give it the current nextjid and advance nextjid; refuse when no slot is free.
     */
    method AddJob(pid: int, state: JobState, cmdline: string) returns (r: int)
      requires Valid()
      modifies this, jobs
      ensures Valid()
      ensures pid < 1 ==> r == 0 && jobs[..] == old(jobs[..]) && nextjid == old(nextjid)
      ensures pid >= 1 && (forall i :: 0 <= i < MAXJOBS ==> old(jobs[i]).pid != 0) ==>
                r == 0 && jobs[..] == old(jobs[..]) && nextjid == old(nextjid)
      ensures pid >= 1 && (exists i :: 0 <= i < MAXJOBS && old(jobs[i]).pid == 0) ==>
                r == 1 && nextjid == Advance(old(nextjid)) &&
                exists i :: 0 <= i < MAXJOBS && old(jobs[i]).pid == 0 &&
                  (forall k :: 0 <= k < i ==> old(jobs[k]).pid != 0) &&
                  jobs[..] == old(jobs[..])[i := Job(pid, old(nextjid), state, cmdline)]
    {
      if pid < 1 {
        return 0;
      }
      var i := 0;
      while i < MAXJOBS
        invariant 0 <= i <= MAXJOBS
        invariant forall k :: 0 <= k < i ==> jobs[k].pid != 0
        invariant jobs[..] == old(jobs[..]) && nextjid == old(nextjid)
      {
        if jobs[i].pid == 0 {
          jobs[i] := Job(pid, nextjid, state, cmdline);
          nextjid := nextjid + 1;
          if nextjid > MAXJOBS {
            nextjid := 1;
          }
          return 1;
        }
        i := i + 1;
      }
      return 0;
    }

    /**
     * deletejob: refuse a pid below 1; otherwise clear the first slot holding pid and
     * set nextjid to one more than the largest remaining jid; return 0 when pid is absent.
     */
    method DeleteJob(pid: int) returns (r: int)
      requires Valid()
      modifies this, jobs
      ensures Valid()
      ensures (pid < 1 || forall i :: 0 <= i < MAXJOBS ==> old(jobs[i]).pid != pid) ==>
                r == 0 && jobs[..] == old(jobs[..]) && nextjid == old(nextjid)
      ensures pid >= 1 && (exists i :: 0 <= i < MAXJOBS && old(jobs[i]).pid == pid) ==>
                r == 1 && nextjid == MaxJidOf(jobs[..]) + 1 &&
                exists i :: 0 <= i < MAXJOBS && old(jobs[i]).pid == pid &&
                  (forall k :: 0 <= k < i ==> old(jobs[k]).pid != pid) &&
                  jobs[..] == old(jobs[..])[i := EmptyJob]
    {
      if pid < 1 {
        return 0;
      }
      var i := 0;
      while i < MAXJOBS
        invariant 0 <= i <= MAXJOBS
        invariant forall k :: 0 <= k < i ==> jobs[k].pid != pid
        invariant jobs[..] == old(jobs[..]) && nextjid == old(nextjid)
      {
        if jobs[i].pid == pid {
          ClearJob(i);
          var m := MaxJid();
          nextjid := m + 1;
          return 1;
        }
        i := i + 1;
      }
      return 0;
    }

    /** fgpid: the pid of the first slot in state FG, or 0. */
    method FgPid() returns (pid: int)
      requires Valid()
      ensures (forall i :: 0 <= i < MAXJOBS ==> jobs[i].state != Fg) ==> pid == 0
      ensures (exists i :: 0 <= i < MAXJOBS && jobs[i].state == Fg) ==>
                exists i :: 0 <= i < MAXJOBS && jobs[i].state == Fg && pid == jobs[i].pid &&
                  forall k :: 0 <= k < i ==> jobs[k].state != Fg
    {
      var i := 0;
      while i < MAXJOBS
        invariant 0 <= i <= MAXJOBS
        invariant forall k :: 0 <= k < i ==> jobs[k].state != Fg
      {
        if jobs[i].state == Fg {
          return jobs[i].pid;
        }
        i := i + 1;
      }
      return 0;
    }

    /** getjobpid: the first slot holding pid, or NULL (None) for pid < 1 or no match. */
    method GetJobPid(pid: int) returns (slot: Option<nat>)
      requires Valid()
      ensures pid < 1 ==> slot == None
      ensures slot == None <==> pid < 1 || forall i :: 0 <= i < MAXJOBS ==> jobs[i].pid != pid
      ensures slot.Some? ==>
                slot.value < MAXJOBS && jobs[slot.value].pid == pid &&
                (forall k :: 0 <= k < slot.value ==> jobs[k].pid != pid)
    {
      if pid < 1 {
        return None;
      }
      var i := 0;
      while i < MAXJOBS
        invariant 0 <= i <= MAXJOBS
        invariant forall k :: 0 <= k < i ==> jobs[k].pid != pid
      {
        if jobs[i].pid == pid {
          return Some(i);
        }
        i := i + 1;
      }
      return None;
    }

    /** getjobjid: the first slot holding jid, or NULL (None) for jid < 1 or no match. */
    method GetJobJid(jid: int) returns (slot: Option<nat>)
      requires Valid()
      ensures jid < 1 ==> slot == None
      ensures slot == None <==> jid < 1 || forall i :: 0 <= i < MAXJOBS ==> jobs[i].jid != jid
      ensures slot.Some? ==>
                slot.value < MAXJOBS && jobs[slot.value].jid == jid &&
                (forall k :: 0 <= k < slot.value ==> jobs[k].jid != jid)
    {
      if jid < 1 {
        return None;
      }
      var i := 0;
      while i < MAXJOBS
        invariant 0 <= i <= MAXJOBS
        invariant forall k :: 0 <= k < i ==> jobs[k].jid != jid
      {
        if jobs[i].jid == jid {
          return Some(i);
        }
        i := i + 1;
      }
      return None;
    }

    /** pid2jid: the jid of the first slot holding pid; 0 for pid < 1 or no match. */
    method Pid2Jid(pid: int) returns (jid: int)
      requires Valid()
      ensures (pid < 1 || forall i :: 0 <= i < MAXJOBS ==> jobs[i].pid != pid) ==> jid == 0
      ensures pid >= 1 && (exists i :: 0 <= i < MAXJOBS && jobs[i].pid == pid) ==>
                exists i :: 0 <= i < MAXJOBS && jobs[i].pid == pid && jid == jobs[i].jid &&
                  forall k :: 0 <= k < i ==> jobs[k].pid != pid
    {
      if pid < 1 {
        return 0;
      }
      var i := 0;
      while i < MAXJOBS
        invariant 0 <= i <= MAXJOBS
        invariant forall k :: 0 <= k < i ==> jobs[k].pid != pid
      {
        if jobs[i].pid == pid {
          return jobs[i].jid;
        }
        i := i + 1;
      }
      return 0;
    }

    /**
     * jid2pid: the pid of the first slot holding jid, or -1.  There is no check on jid,
     * so jid2pid(0) finds the first cleared slot and returns its pid, 0.
     */
    method Jid2Pid(jid: int) returns (pid: int)
      requires Valid()
      ensures (forall i :: 0 <= i < MAXJOBS ==> jobs[i].jid != jid) ==> pid == -1
      ensures (exists i :: 0 <= i < MAXJOBS && jobs[i].jid == jid) ==>
                exists i :: 0 <= i < MAXJOBS && jobs[i].jid == jid && pid == jobs[i].pid &&
                  forall k :: 0 <= k < i ==> jobs[k].jid != jid
    {
      var i := 0;
      while i < MAXJOBS
        invariant 0 <= i <= MAXJOBS
        invariant forall k :: 0 <= k < i ==> jobs[k].jid != jid
      {
        if jobs[i].jid == jid {
          return jobs[i].pid;
        }
        i := i + 1;
      }
      return -1;
    }
  }

  /** After initjobs, maxjid returns 0 and no slot is found by pid or by jid. */
  method InitThenQuery(t: JobTable, pid: int, jid: int) returns (m: int, byPid: Option<nat>, byJid: Option<nat>)
    requires t.Valid()
    modifies t.jobs
    ensures m == 0 && byPid == None && byJid == None
  {
    t.InitJobs();
    m := t.MaxJid();
    MaxJidOfCleared(t.jobs[..]);
    byPid := t.GetJobPid(pid);
    byJid := t.GetJobJid(jid);
  }
}
