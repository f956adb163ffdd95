/**
 The lookups of `MultiCoreScheduler`: the formatted task data with each task's
 sources, the first-match searches over the device and network-delay stores, and
 the communication delay between two cores.
 */
module Lookups {
  import opened Wrappers
  import opened SystemModel

  /** A dependency that survives the `__system` filter and ends at task `name`. */
  predicate Feeds(d: Dependency, name: string) {
    && d.sourceTask != SystemBoundary
    && d.destinationTask != SystemBoundary
    && d.destinationTask == name
  }

  /** The sources of the dependencies feeding `name`, in dependency order. */
  function SourcesOf(name: string, deps: seq<Dependency>): (sources: seq<string>)
    ensures |sources| <= |deps|
    ensures forall s :: s in sources <==> exists d :: d in deps && Feeds(d, name) && d.sourceTask == s
  {
    if |deps| == 0 then []
    else
      var rest := SourcesOf(name, deps[1..]);
      assert forall d :: d in deps <==> d == deps[0] || d in deps[1..];
      if Feeds(deps[0], name) then [deps[0].sourceTask] + rest else rest
  }

  /** Collecting sources commutes with splitting the dependency store: order is kept. */
  lemma {:induction false} SourcesOfAppend(name: string, a: seq<Dependency>, b: seq<Dependency>)
    ensures SourcesOf(name, a + b) == SourcesOf(name, a) + SourcesOf(name, b)
  {
    if |a| > 0 {
      assert (a + b)[1..] == a[1..] + b;
      SourcesOfAppend(name, a[1..], b);
    } else {
      assert a + b == b;
    }
  }

  /** `get_source_tasks`: no dependency store means no sources. */
  function GetSourceTasks(task: Task, dependencies: Option<seq<Dependency>>): (sources: seq<string>)
    ensures dependencies.None? ==> sources == []
    ensures dependencies.Some? ==> forall s :: s in sources <==>
      exists d :: d in dependencies.value && Feeds(d, task.name) && d.sourceTask == s
    ensures SystemBoundary !in sources
  {
    match dependencies
    case None => []
    case Some(deps) => SourcesOf(task.name, deps)
  }

  /** An entry of the formatted task data. */
  datatype TaskData = TaskData(
    name: string,
    offset: int,
    duration: int,
    period: int,
    wcet: int,
    requiredCore: Option<string>,
    requiredDevice: Option<string>,
    dependsOn: seq<string>)

  /** One entry of `format_tasks`: the task's timing under the entry's key names, its pins and its sources. */
  function FormatTask(task: Task, dependencies: Option<seq<Dependency>>): (d: TaskData)
    ensures d.name == task.name && d.offset == task.activationOffset
    ensures d.duration == task.duration && d.period == task.period && d.wcet == task.wcet
    ensures d.requiredCore == task.core && d.requiredDevice == task.device
    ensures forall s :: s in d.dependsOn <==>
      dependencies.Some? && exists dep :: dep in dependencies.value && Feeds(dep, task.name) && dep.sourceTask == s
  {
    TaskData(
      task.name, task.activationOffset, task.duration, task.period, task.wcet,
      task.core, task.device, GetSourceTasks(task, dependencies))
  }

  /** `format_tasks`: one entry per task, in input order. */
  function FormatTasks(tasks: seq<Task>, dependencies: Option<seq<Dependency>>): (data: seq<TaskData>)
    ensures |data| == |tasks|
    ensures forall i :: 0 <= i < |tasks| ==> data[i] == FormatTask(tasks[i], dependencies)
  {
    seq(|tasks|, i requires 0 <= i < |tasks| => FormatTask(tasks[i], dependencies))
  }

  predicate HasTaskData(data: seq<TaskData>, name: string) {
    exists i :: 0 <= i < |data| && data[i].name == name
  }

  /** Position of the first entry named `name` (`next` over a generator). */
  function TaskDataIndex(data: seq<TaskData>, name: string): (i: nat)
    requires HasTaskData(data, name)
    ensures i < |data| && data[i].name == name
    ensures forall j :: 0 <= j < i ==> data[j].name != name
  {
    if data[0].name == name then 0
    else
      assert HasTaskData(data[1..], name) by {
        var k :| 0 <= k < |data| && data[k].name == name;
        assert data[1..][k - 1].name == name;
      }
      1 + TaskDataIndex(data[1..], name)
  }

  /** `get_task_data`: raises `StopIteration` when no entry has the name. */
  function GetTaskData(data: seq<TaskData>, name: string): (d: TaskData)
    requires HasTaskData(data, name)
    ensures d.name == name
    ensures exists i :: 0 <= i < |data| && data[i] == d && forall j :: 0 <= j < i ==> data[j].name != name
  {
    data[TaskDataIndex(data, name)]
  }

  /** With distinct task names, looking a task's name up finds that task's own data. */
  lemma FormattedLookup(tasks: seq<Task>, dependencies: Option<seq<Dependency>>, i: nat)
    requires i < |tasks|
    requires forall j, k :: 0 <= j < k < |tasks| ==> tasks[j].name != tasks[k].name
    ensures HasTaskData(FormatTasks(tasks, dependencies), tasks[i].name)
    ensures GetTaskData(FormatTasks(tasks, dependencies), tasks[i].name) == FormatTask(tasks[i], dependencies)
  {
    var data := FormatTasks(tasks, dependencies);
    assert data[i].name == tasks[i].name;
  }

  /** First delay entry for `protocol` in one device's list. */
  function FindProtocol(delays: seq<ProtocolDelay>, protocol: string): (r: Option<nat>)
    ensures r.Some? ==> r.value < |delays| && delays[r.value].protocol == protocol
    ensures r.Some? ==> forall j :: 0 <= j < r.value ==> delays[j].protocol != protocol
    ensures r.None? <==> forall j :: 0 <= j < |delays| ==> delays[j].protocol != protocol
  {
    if |delays| == 0 then None
    else if delays[0].protocol == protocol then Some(0)
    else
      match FindProtocol(delays[1..], protocol)
      case None =>
        assert forall j :: 1 <= j < |delays| ==> delays[j] == delays[1..][j - 1];
        None
      case Some(j) => Some(j + 1)
  }

  /** Some device named `name` has an entry for `protocol`. */
  predicate Offers(devices: seq<Device>, name: string, protocol: string) {
    exists i, j :: 0 <= i < |devices| && devices[i].name == name
      && 0 <= j < |devices[i].delays| && devices[i].delays[j].protocol == protocol
  }

  /** Device `i` is named `name` and has an entry for `protocol`. */
  predicate OffersAt(devices: seq<Device>, name: string, protocol: string, i: int)
    requires 0 <= i < |devices|
  {
    devices[i].name == name && FindProtocol(devices[i].delays, protocol).Some?
  }

  /**
   `get_device_delay`: scans the devices named `name` in order and returns the
   first entry for `protocol` found among their delays.
   */
  function GetDeviceDelay(devices: seq<Device>, name: string, protocol: string): (r: Option<ProtocolDelay>)
    ensures r.Some? ==> r.value.protocol == protocol
    ensures r.Some? ==> exists i :: 0 <= i < |devices| && devices[i].name == name && r.value in devices[i].delays
    ensures r.None? <==> !Offers(devices, name, protocol)
  {
    if |devices| == 0 then None
    else
      var here := if devices[0].name == name then FindProtocol(devices[0].delays, protocol) else None;
      assert forall i :: 1 <= i < |devices| ==> devices[i] == devices[1..][i - 1];
      match here
      case Some(j) => Some(devices[0].delays[j])
      case None =>
        var r := GetDeviceDelay(devices[1..], name, protocol);
        assert Offers(devices, name, protocol) <==> Offers(devices[1..], name, protocol) by {
          if Offers(devices, name, protocol) {
            var i, j :| 0 <= i < |devices| && devices[i].name == name
              && 0 <= j < |devices[i].delays| && devices[i].delays[j].protocol == protocol;
            assert i > 0;
            assert devices[1..][i - 1] == devices[i];
          }
          if Offers(devices[1..], name, protocol) {
            var i, j :| 0 <= i < |devices[1..]| && devices[1..][i].name == name
              && 0 <= j < |devices[1..][i].delays| && devices[1..][i].delays[j].protocol == protocol;
            assert devices[i + 1] == devices[1..][i];
          }
        }
        r
  }

  /**
   The result is the first entry for `protocol` of the first device named `name`
   that has one: devices scanned before it contribute nothing.
   */
  lemma {:induction false} GetDeviceDelayFirst(devices: seq<Device>, name: string, protocol: string, i: nat)
    requires i < |devices| && OffersAt(devices, name, protocol, i)
    requires forall j :: 0 <= j < i ==> !OffersAt(devices, name, protocol, j)
    ensures GetDeviceDelay(devices, name, protocol) == Some(devices[i].delays[FindProtocol(devices[i].delays, protocol).value])
  {
    if i > 0 {
      var tail := devices[1..];
      assert !OffersAt(devices, name, protocol, 0);
      forall j | 0 <= j < i - 1
        ensures !OffersAt(tail, name, protocol, j)
      {
        assert tail[j] == devices[j + 1];
        assert !OffersAt(devices, name, protocol, j + 1);
      }
      assert tail[i - 1] == devices[i];
      GetDeviceDelayFirst(tail, name, protocol, i - 1);
    }
  }

  predicate Connects(link: NetworkLink, src: string, dst: string) {
    link.source == src && link.dest == dst
  }

  /** Position of the first network link from `src` to `dst`. */
  function FindLink(links: seq<NetworkLink>, src: string, dst: string): (r: Option<nat>)
    ensures r.Some? ==> r.value < |links| && Connects(links[r.value], src, dst)
    ensures r.Some? ==> forall j :: 0 <= j < r.value ==> !Connects(links[j], src, dst)
    ensures r.None? <==> forall j :: 0 <= j < |links| ==> !Connects(links[j], src, dst)
  {
    if |links| == 0 then None
    else if Connects(links[0], src, dst) then Some(0)
    else
      match FindLink(links[1..], src, dst)
      case None =>
        assert forall j :: 1 <= j < |links| ==> links[j] == links[1..][j - 1];
        None
      case Some(j) => Some(j + 1)
  }

  /**
   What `get_delay` needs to not crash: when a link between two different
   devices exists, both devices have a tcp entry.
   */
  predicate DelayDefined(source: Core, dest: Core, devices: seq<Device>, links: seq<NetworkLink>) {
    source.device != dest.device && FindLink(links, source.device, dest.device).Some? ==>
      GetDeviceDelay(devices, source.device, Tcp).Some? && GetDeviceDelay(devices, dest.device, Tcp).Some?
  }

  /** The link at `j` is the first one from `src` to `dst`. */
  predicate IsFirstLink(links: seq<NetworkLink>, src: string, dst: string, j: int) {
    && 0 <= j < |links|
    && Connects(links[j], src, dst)
    && forall k :: 0 <= k < j ==> !Connects(links[k], src, dst)
  }

  /** Worst-case tcp delay of a device that has one. */
  function TcpWcdt(devices: seq<Device>, name: string): int
    requires GetDeviceDelay(devices, name, Tcp).Some?
  {
    GetDeviceDelay(devices, name, Tcp).value.wcdt
  }

  /**
   `get_delay`: zero on one device; otherwise the first matching link's delay plus
   the tcp delay at both ends; `N` when no link is registered.
   */
  function GetDelay(source: Core, dest: Core, devices: seq<Device>, links: seq<NetworkLink>, N: int): (d: int)
    requires DelayDefined(source, dest, devices, links)
    ensures source.device == dest.device ==> d == 0
    ensures source.device != dest.device && !(exists j :: IsFirstLink(links, source.device, dest.device, j)) ==> d == N
    ensures forall j :: source.device != dest.device && IsFirstLink(links, source.device, dest.device, j) ==>
      d == links[j].wcdt + TcpWcdt(devices, source.device) + TcpWcdt(devices, dest.device)
  {
    if source.device == dest.device then 0
    else
      match FindLink(links, source.device, dest.device)
      case None => N
      case Some(j) =>
        assert IsFirstLink(links, source.device, dest.device, j);
        assert forall k :: IsFirstLink(links, source.device, dest.device, k) ==> k == j;
        links[j].wcdt + TcpWcdt(devices, source.device) + TcpWcdt(devices, dest.device)
  }

  /** Every registered delay is non-negative, so is the charged delay. */
  lemma DelayNonNegative(source: Core, dest: Core, devices: seq<Device>, links: seq<NetworkLink>, N: int)
    requires DelayDefined(source, dest, devices, links)
    requires N >= 0
    requires forall j :: 0 <= j < |links| ==> links[j].wcdt >= 0
    requires forall i, j :: 0 <= i < |devices| && 0 <= j < |devices[i].delays| ==> devices[i].delays[j].wcdt >= 0
    ensures GetDelay(source, dest, devices, links, N) >= 0
  {
    if source.device != dest.device && FindLink(links, source.device, dest.device).Some? {
      var a := GetDeviceDelay(devices, source.device, Tcp).value;
      var b := GetDeviceDelay(devices, dest.device, Tcp).value;
      var i :| 0 <= i < |devices| && devices[i].name == source.device && a in devices[i].delays;
      var k :| 0 <= k < |devices| && devices[k].name == dest.device && b in devices[k].delays;
    }
  }
}
