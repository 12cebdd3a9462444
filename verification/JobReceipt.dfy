/**
 * Cleanup of the disposable database projects of one CI job. The receipt lists every project whose resources may
 * exist; a job may be cut off before any of its effects, and its cleanup run again.
 */
module JobReceipt {
  import opened Options

  /** `config` stands for the digest of the project's configuration. */
  datatype Project = Project(id: string, config: string, resourcesAbsent: bool)

  /** A project directory; removing one takes time, so it may be found partly removed. */
  datatype Directory = Whole(config: string) | Partial

  datatype Outcome = Finished | CutOff | Refused(reason: Reason)

  datatype Reason = ProducerRunning | StillRunning | Disappeared | ConfigChanged | Reappeared | ResourcesRemain

  ghost predicate Lists(projects: seq<Project>, id: string) {
    exists i :: 0 <= i < |projects| && projects[i].id == id
  }

  ghost predicate DistinctIds(projects: seq<Project>) {
    forall i, j :: 0 <= i < j < |projects| ==> projects[i].id != projects[j].id
  }

  /** A project still counted on has its directory whole; one without resources may have lost it. */
  ghost predicate Tracked(p: Project, directories: map<string, Directory>, resources: set<string>) {
    if p.resourcesAbsent then p.id !in resources else p.id in directories && directories[p.id] == Whole(p.config)
  }

  ghost predicate Consistent(projects: seq<Project>, directories: map<string, Directory>, resources: set<string>) {
    && DistinctIds(projects)
    && (forall i :: 0 <= i < |projects| ==> Tracked(projects[i], directories, resources))
    && (forall id :: id in resources ==> Lists(projects, id))
  }

  class Job {
    /** The receipt file. */
    var receipt: Option<seq<Project>>
    var directories: map<string, Directory>
    /** The projects that have Docker resources. */
    var resources: set<string>

    ghost function Listed(): seq<Project>
      reads this
    {
      if receipt.Some? then receipt.value else []
    }

    /**
     * At every moment, and so after every crash: resources imply an entry, and an entry whose directory is gone or
     * partly removed says that its resources are absent, which they are.
     */
    ghost predicate Valid()
      reads this
    {
      Consistent(Listed(), directories, resources)
    }

    constructor ()
      ensures Valid() && receipt == None && directories == map[] && resources == {}
    {
      receipt, directories, resources := None, map[], {};
    }

    /** Writes the whole list in one durable step. */
    method Save(projects: seq<Project>)
      requires Consistent(projects, directories, resources)
      modifies this`receipt
      ensures Valid() && receipt == Some(projects)
    {
      receipt := Some(projects);
    }

    /** Makes a directory, enters it in the receipt, and only then starts resources in it. */
    method Start(id: string, config: string, effects: nat) returns (outcome: Outcome)
      requires Valid() && id !in directories && id !in resources && !Lists(Listed(), id)
      modifies this
      ensures Valid() && outcome == if effects >= 4 then Finished else CutOff
      ensures outcome == Finished ==>
              receipt == Some(old(Listed()) + [Project(id, config, false)]) && resources == old(resources) + {id}
      ensures forall other :: other != id ==> (other in resources <==> other in old(resources))
      ensures directories == if effects == 0 then old(directories)
                             else old(directories)[id := if effects == 1 then Partial else Whole(config)]
      ensures receipt == if effects < 3 then old(receipt) else Some(old(Listed()) + [Project(id, config, false)])
      ensures resources == if effects < 4 then old(resources) else old(resources) + {id}
    {
      var data := if receipt.Some? then receipt.value else [];
      if effects == 0 { return CutOff; }
      directories := directories[id := Partial];
      if effects == 1 { return CutOff; }
      directories := directories[id := Whole(config)];
      if effects == 2 { return CutOff; }
      AddedIsConsistent(data, Project(id, config, false), directories, resources);
      Save(data + [Project(id, config, false)]);
      if effects == 3 { return CutOff; }
      assert receipt.value[|data|].id == id;
      resources := resources + {id};
      return Finished;
    }

    /**
     * Removes the first listed project: resources first, which is recorded before its directory goes, and its entry
     * last. `running` says whether a process of it is found alive, `stops` whether stopping removes its resources.
     */
    method RemoveProject(running: bool, stops: bool, effects: nat) returns (outcome: Outcome, left: nat)
      requires receipt.Some? && receipt.value != []
      modifies this
      ensures old(Valid()) ==> Valid()
      ensures receipt.Some? && left <= effects && outcome != Refused(ProducerRunning)
      ensures var p := old(receipt).value[0];
              && (outcome == Refused(Disappeared) <==> !p.resourcesAbsent && p.id !in old(directories))
              && (outcome == Refused(ConfigChanged) <==>
                  !p.resourcesAbsent && p.id in old(directories) && old(directories)[p.id] != Whole(p.config))
              && (outcome == Refused(Reappeared) <==> p.resourcesAbsent && !running && p.id in old(resources))
              && (running ==> outcome.Refused? && outcome.reason in {Disappeared, ConfigChanged, StillRunning})
              && (outcome.Refused? && outcome.reason != ResourcesRemain ==>
                    receipt == old(receipt) && directories == old(directories) && resources == old(resources))
              && (outcome == Refused(StillRunning) ==> running)
              && (outcome == Refused(ResourcesRemain) ==> !stops && !p.resourcesAbsent && p.id in old(resources))
              && (!stops && !p.resourcesAbsent && p.id in old(resources) ==> outcome.Refused? || outcome == CutOff)
              && (outcome == CutOff ==> effects < Cost(p, old(directories), old(resources)) <= 5)
              && (outcome == Finished ==> left + Cost(p, old(directories), old(resources)) == effects)
              && (outcome != Finished ==>
                    receipt.value != [] && receipt.value[0].(resourcesAbsent := p.resourcesAbsent) == p &&
                    receipt.value[1..] == old(receipt).value[1..])
              && (outcome == CutOff && p.id in old(directories) ==>
                    var missing := Cost(p, old(directories), old(resources)) - effects;
                    CutAt(p, missing, receipt.value[0], directories, resources))
              && (outcome == Finished ==> receipt.value == old(receipt).value[1..] && effects <= left + 5)
              && (outcome == Finished ==> p.id !in directories && p.id !in resources)
              && directories - {p.id} == old(directories) - {p.id} && resources - {p.id} == old(resources) - {p.id}
    {
      var data := receipt.value;
      var p := data[0];
      left := effects;
      if !p.resourcesAbsent {
        if p.id !in directories {
          return Refused(Disappeared), left;
        }
        if directories[p.id] != Whole(p.config) {
          return Refused(ConfigChanged), left;
        }
      }
      if running {
        return Refused(StillRunning), left;
      }
      if p.resourcesAbsent {
        if p.id in resources {
          return Refused(Reappeared), left;
        }
      } else {
        if p.id in resources {
          if left == 0 { return CutOff, left; }
          left := left - 1;
          if stops {
            StoppedIsConsistent(data, directories, resources);
            resources := resources - {p.id};
          }
        }
        if p.id in resources {
          return Refused(ResourcesRemain), left;
        }
        if left == 0 { return CutOff, left; }
        left := left - 1;
        AbsentIsConsistent(data, directories, resources);
        data := [p.(resourcesAbsent := true)] + data[1..];
        receipt := Some(data);
      }
      assert data[1..] == old(receipt).value[1..];
      if p.id in directories {
        if left == 0 { return CutOff, left; }
        left := left - 1;
        RemovalIsConsistent(data, directories, resources);
        directories := directories[p.id := Partial];
        if left == 0 { return CutOff, left; }
        left := left - 1;
        RemovalIsConsistent(data, directories, resources);
        directories := directories - {p.id};
      }
      if left == 0 { return CutOff, left; }
      left := left - 1;
      DroppedIsConsistent(data, directories, resources);
      receipt := Some(data[1..]);
      return Finished, left;
    }

    /** Removes the first listed project of a receipt that has told the truth: no refusal blames an earlier cleanup. */
    method RemoveOwned(running: bool, stops: bool, effects: nat) returns (outcome: Outcome, left: nat)
      requires Valid() && receipt.Some? && receipt.value != []
      modifies this
      ensures Valid() && receipt.Some?
      ensures outcome.Refused? ==>
              (outcome.reason == StillRunning && running) || (outcome.reason == ResourcesRemain && !stops)
      ensures running ==>
                && outcome == Refused(StillRunning)
                && receipt == old(receipt) && directories == old(directories) && resources == old(resources)
      ensures var id := old(receipt).value[0].id;
              directories - {id} == old(directories) - {id} && resources - {id} == old(resources) - {id}
      ensures var rest := old(receipt).value[1..];
              receipt.value == rest || (receipt.value != [] && receipt.value[1..] == rest)
      ensures outcome == CutOff ==> effects < 5
      ensures outcome == Finished ==> receipt.value == old(receipt).value[1..] && effects <= left + 5
      ensures var id := old(receipt).value[0].id;
              outcome == Finished ==> Without(id, old(directories), old(resources), directories, resources)
    {
      NothingDisappeared(receipt.value, directories, resources);
      ghost var id, was := receipt.value[0].id, directories;
      outcome, left := RemoveProject(running, stops, effects);
      assert (directories - {id}).Keys == directories.Keys - {id} && (was - {id}).Keys == was.Keys - {id};
      assert outcome.Refused? ==> outcome == Refused(outcome.reason);
    }

    /**
     * Finishes every listed project and then removes the receipt, unless the job that made them lives and is not the
     * one cleaning up. It never stops because of what an earlier, cut off cleanup left behind: only a live process or
     * resources that will not go hold it up.
     */
    method CleanupOwnedProjects(producerRuns: bool, running: string -> bool, stops: string -> bool, effects: nat)
      returns (outcome: Outcome)
      requires Valid() && receipt.Some?
      modifies this
      ensures Valid()
      ensures outcome == Finished ==>
              receipt == None && resources == {} && Gone(old(receipt).value, directories, resources)
      ensures outcome == Refused(ProducerRunning) <==> producerRuns
      ensures producerRuns ==> receipt == old(receipt) && directories == old(directories) && resources == old(resources)
      ensures outcome.Refused? ==> receipt.Some? && outcome.reason in {ProducerRunning, StillRunning, ResourcesRemain}
      ensures forall p :: p in old(receipt).value && running(p.id) ==>
                && outcome != Finished && receipt.Some? && p in receipt.value
                && SameOf(p.id, old(directories), old(resources), directories, resources)
      ensures outcome == CutOff ==> receipt.Some? && effects <= 5 * |old(receipt).value|
      ensures !producerRuns && (forall p :: p in old(receipt).value ==> !running(p.id) && stops(p.id)) ==>
              !outcome.Refused?
    {
      if producerRuns {
        return Refused(ProducerRunning);
      }
      var left: nat := effects;
      ghost var all, k := receipt.value, 0;
      while receipt.value != []
        invariant Valid() && receipt.Some? && k <= |all| && receipt.value == all[k..]
        invariant Gone(all[..k], directories, resources)
        invariant forall j :: 0 <= j < k ==> !running(all[j].id)
        invariant Untouched(all[k..], old(directories), old(resources), directories, resources)
        invariant effects <= left + 5 * k
        decreases |receipt.value|
      {
        ghost var wasDirectories, wasResources := directories, resources;
        var id := receipt.value[0].id;
        assert receipt.value[0] == all[k];
        outcome, left := RemoveOwned(running(id), stops(id), left);
        StillUntouched(all, k, old(directories), old(resources), wasDirectories, wasResources, directories, resources);
        if outcome != Finished {
          assert all[k..][1..] == all[k + 1..];
          RunningKept(all, k, running, receipt.value, old(directories), old(resources), wasDirectories, wasResources,
                      directories, resources);
          return;
        }
        StillGone(all[..k], all[k], wasDirectories, wasResources, directories, resources);
        assert all[..k + 1] == all[..k] + [all[k]] && all[k..][1..] == all[k + 1..];
        k := k + 1;
      }
      assert all[..k] == all;
      NothingLeft(directories, resources);
      if left == 0 {
        return CutOff;
      }
      receipt := None;
      return Finished;
    }
  }

  /** The effects of removing a project: its resources, the record of that, its directory in two, and its entry. */
  function Cost(p: Project, directories: map<string, Directory>, resources: set<string>): nat {
    (if p.id in resources then 1 else 0) + (if p.resourcesAbsent then 0 else 1) +
    (if p.id in directories then 2 else 0) + 1
  }

  /** Where a removal stands that lacks this many effects: the directory goes after the record, the entry after that. */
  ghost predicate CutAt(p: Project, missing: int, entry: Project, directories: map<string, Directory>,
                        resources: set<string>) {
    && (missing == 1 ==> p.id !in directories)
    && (missing == 2 ==> p.id in directories && directories[p.id] == Partial)
    && (missing <= 3 ==> entry.resourcesAbsent)
    && (missing == 4 && !p.resourcesAbsent ==> !entry.resourcesAbsent && p.id !in resources)
  }

  /** Nothing of these projects is left. */
  ghost predicate Gone(projects: seq<Project>, directories: map<string, Directory>, resources: set<string>) {
    forall i :: 0 <= i < |projects| ==> projects[i].id !in directories && projects[i].id !in resources
  }

  /** This project lost its directory and its resources, and no other project did. */
  ghost predicate Without(id: string, d: map<string, Directory>, r: set<string>, d': map<string, Directory>,
                          r': set<string>) {
    id !in d' && id !in r' && d'.Keys - {id} == d.Keys - {id} && r' - {id} == r - {id}
  }

  lemma StillGone(projects: seq<Project>, p: Project, d: map<string, Directory>, r: set<string>,
                  d': map<string, Directory>, r': set<string>)
    requires Gone(projects, d, r) && Without(p.id, d, r, d', r')
    ensures Gone(projects + [p], d', r')
  {
    forall i | 0 <= i < |projects|
      ensures projects[i].id !in d' && projects[i].id !in r'
    {
      var x := projects[i].id;
      if x != p.id {
        assert x !in d.Keys - {p.id} && x !in r - {p.id};
      }
    }
  }

  /** The project's directory and resources are as they were. */
  ghost predicate SameOf(id: string, d: map<string, Directory>, r: set<string>, d': map<string, Directory>,
                         r': set<string>) {
    (id in d' <==> id in d) && (id in d ==> d'[id] == d[id]) && (id in r' <==> id in r)
  }

  ghost predicate Untouched(projects: seq<Project>, d: map<string, Directory>, r: set<string>,
                            d': map<string, Directory>, r': set<string>) {
    forall i :: 0 <= i < |projects| ==> SameOf(projects[i].id, d, r, d', r')
  }

  lemma OthersSame(id: string, x: string, d: map<string, Directory>, r: set<string>, d': map<string, Directory>,
                   r': set<string>)
    requires id != x && d' - {id} == d - {id} && r' - {id} == r - {id}
    ensures SameOf(x, d, r, d', r')
  {
    assert x in d' <==> x in d' - {id};
    assert x in d <==> x in d - {id};
    assert x in d ==> d[x] == (d - {id})[x] && d'[x] == (d' - {id})[x];
    assert x in r' <==> x in r' - {id};
    assert x in r <==> x in r - {id};
  }

  /** Dealing with the project at `k` leaves the later ones as they were from the beginning. */
  lemma StillUntouched(all: seq<Project>, k: nat, d0: map<string, Directory>, r0: set<string>,
                       d: map<string, Directory>, r: set<string>, d': map<string, Directory>, r': set<string>)
    requires k < |all| && DistinctIds(all[k..]) && Untouched(all[k..], d0, r0, d, r)
    requires d' - {all[k].id} == d - {all[k].id} && r' - {all[k].id} == r - {all[k].id}
    ensures Untouched(all[k + 1..], d0, r0, d', r')
  {
    var rest := all[k + 1..];
    forall i | 0 <= i < |rest|
      ensures SameOf(rest[i].id, d0, r0, d', r')
    {
      assert rest[i] == all[k..][i + 1] && all[k] == all[k..][0];
      OthersSame(all[k].id, rest[i].id, d, r, d', r');
      assert SameOf(all[k..][i + 1].id, d0, r0, d, r);
    }
  }

  lemma RunningKept(all: seq<Project>, k: nat, running: string -> bool, now: seq<Project>,
                    d0: map<string, Directory>, r0: set<string>, d: map<string, Directory>, r: set<string>,
                    d': map<string, Directory>, r': set<string>)
    requires k < |all| && (forall j :: 0 <= j < k ==> !running(all[j].id))
    requires Untouched(all[k..], d0, r0, d, r) && Untouched(all[k + 1..], d0, r0, d', r')
    requires if running(all[k].id) then now == all[k..] && d' == d && r' == r
             else now == all[k + 1..] || (now != [] && now[1..] == all[k + 1..])
    ensures forall p :: p in all && running(p.id) ==> p in now && SameOf(p.id, d0, r0, d', r')
  {
    forall p | p in all && running(p.id)
      ensures p in now && SameOf(p.id, d0, r0, d', r')
    {
      var j :| 0 <= j < |all| && all[j] == p;
      if j == k {
        assert all[k..][0] == p;
      } else {
        assert all[k + 1..][j - k - 1] == p;
        assert p in all[k + 1..];
      }
    }
  }

  lemma NothingLeft(d: map<string, Directory>, r: set<string>)
    requires Consistent([], d, r)
    ensures r == {}
  {
    assert forall id :: id in r ==> Lists([], id);
  }

  /** The first entry gives no cause for refusing it. */
  lemma NothingDisappeared(data: seq<Project>, d: map<string, Directory>, r: set<string>)
    requires Consistent(data, d, r) && data != []
    ensures !data[0].resourcesAbsent ==> data[0].id in d && d[data[0].id] == Whole(data[0].config)
    ensures data[0].resourcesAbsent ==> data[0].id !in r
  {
    assert Tracked(data[0], d, r);
  }

  lemma AddedIsConsistent(data: seq<Project>, p: Project, d: map<string, Directory>, r: set<string>)
    requires Consistent(data, d, r) && !Lists(data, p.id) && Tracked(p, d, r)
    ensures Consistent(data + [p], d, r)
  {
    forall id | id in r
      ensures Lists(data + [p], id)
    {
      var i :| 0 <= i < |data| && data[i].id == id;
      assert (data + [p])[i].id == id;
    }
  }

  lemma StoppedIsConsistent(data: seq<Project>, d: map<string, Directory>, r: set<string>)
    requires data != []
    ensures Consistent(data, d, r) ==> Consistent(data, d, r - {data[0].id})
  {
  }

  lemma AbsentIsConsistent(data: seq<Project>, d: map<string, Directory>, r: set<string>)
    requires data != [] && data[0].id !in r
    ensures Consistent(data, d, r) ==> Consistent([data[0].(resourcesAbsent := true)] + data[1..], d, r)
  {
    var next := [data[0].(resourcesAbsent := true)] + data[1..];
    forall id | Lists(data, id)
      ensures Lists(next, id)
    {
      var i :| 0 <= i < |data| && data[i].id == id;
      assert next[i].id == id;
    }
  }

  lemma RemovalIsConsistent(data: seq<Project>, d: map<string, Directory>, r: set<string>)
    requires data != [] && data[0].resourcesAbsent
    ensures Consistent(data, d, r) ==>
            Consistent(data, d[data[0].id := Partial], r) && Consistent(data, d - {data[0].id}, r)
  {
    if Consistent(data, d, r) {
      forall i | 0 <= i < |data|
        ensures Tracked(data[i], d[data[0].id := Partial], r) && Tracked(data[i], d - {data[0].id}, r)
      {
        assert Tracked(data[i], d, r);
        assert i > 0 ==> data[0].id != data[i].id;
      }
    }
  }

  lemma DroppedIsConsistent(data: seq<Project>, d: map<string, Directory>, r: set<string>)
    requires data != [] && data[0].id !in r
    ensures Consistent(data, d, r) ==> Consistent(data[1..], d, r)
  {
    if Consistent(data, d, r) {
      forall id | id in r
        ensures Lists(data[1..], id)
      {
        var i :| 0 <= i < |data| && data[i].id == id;
        assert data[1..][i - 1].id == id;
      }
    }
  }
}
