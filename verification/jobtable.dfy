/**
 * `CronTab`: the ordered table of parsed jobs. `null` is modelled as
 * `None`; the table is a sequential object.
 */
module JobTable {
  import opened Wrappers
  import opened Jobs

  class CronTab {
    /** The jobs in the order they were added. */
    var jobs: seq<Job>

    /** A new tab holds no jobs. */
    constructor()
      ensures jobs == []
    {
      jobs := [];
    }

    /** `AddJob`: appends a job at the end; a null job is ignored. */
    method AddJob(job: Option<Job>)
      modifies this
      ensures job.None? ==> jobs == old(jobs)
      ensures job.Some? ==> jobs == old(jobs) + [job.value]
    {
      if job.Some? {
        jobs := jobs + [job.value];
      }
    }

    /** `Clear`: removes every job. */
    method Clear()
      modifies this
      ensures jobs == []
    {
      jobs := [];
    }

    /**
     * `GetJobs`: a copy of the job list. A sequence is a value, so the
     * snapshot shares nothing with the tab.
     */
    method GetJobs() returns (snapshot: seq<Job>)
      ensures snapshot == jobs
    {
      snapshot := jobs;
    }
  }

  /**
   * A snapshot taken before the tab changes keeps the jobs the tab held
   * then, whatever is added or cleared afterwards.
   */
  method SnapshotSurvivesChanges(tab: CronTab, job: Option<Job>) returns (snapshot: seq<Job>)
    modifies tab
    ensures snapshot == old(tab.jobs)
    ensures tab.jobs == []
  {
    snapshot := tab.GetJobs();
    tab.AddJob(job);
    tab.Clear();
  }
}
