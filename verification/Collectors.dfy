/** The discovery scan and the worker process that runs it: what goes onto the pipe, in which order. */
module Collectors {
  import opened Wrappers
  import opened Cidr
  import Networks

  type JobId = nat

  /** A positive observation of one host; `detail` stands for latency, source and port. */
  datatype Device = Device(target: nat, detail: string)

  /** What one thread of the pool ends with. */
  datatype Probe =
    | Reachable(device: Device)
    | Silent(target: nat)
    | Crashed(target: nat, error: string)

  function Target(p: Probe): nat {
    match p
    case Reachable(d) => d.target
    case Silent(t) => t
    case Crashed(t, _) => t
  }

  function Targets(probes: seq<Probe>): seq<nat> {
    seq(|probes|, i requires 0 <= i < |probes| => Target(probes[i]))
  }

  datatype Batch = Batch(network: Network, devices: seq<Device>, scanned: nat)
  datatype Scan = Scan(network: Network, devices: seq<Device>, scanned: nat, unresponsive: int)

  function Noted(devices: seq<Device>, p: Probe): seq<Device> {
    if p.Reachable? then devices + [p.device] else devices
  }

  /** The devices among the given completions, in completion order. */
  function Devices(probes: seq<Probe>): (devices: seq<Device>)
    ensures |devices| <= |probes|
  {
    if probes == [] then [] else Noted(Devices(probes[..|probes| - 1]), probes[|probes| - 1])
  }

  /** The number of completions before the first crash, or all of them. */
  function FirstCrash(probes: seq<Probe>): (n: nat)
    ensures n <= |probes|
    ensures forall i :: 0 <= i < n ==> !probes[i].Crashed?
    ensures n < |probes| ==> probes[n].Crashed?
  {
    if probes == [] || probes[0].Crashed? then 0 else 1 + FirstCrash(probes[1..])
  }

  function Min(a: int, b: int): int { if a < b then a else b }

  /** The number of batches sent once `done` of `total` completions are in. */
  function BatchCount(done: nat, total: nat): nat {
    if done == total then (done + 16 - 1) / 16 else done / 16
  }

  lemma BatchCountIs(k: nat, done: nat, total: nat)
    requires if done == total then (k - 1) * 16 < done <= k * 16 else k * 16 <= done < (k + 1) * 16
    ensures BatchCount(done, total) == k
  {
  }

  /** The `k`-th batch: the devices of its own sixteen completions, and how many completions precede its end. */
  function BatchAt(network: Network, probes: seq<Probe>, k: nat): Batch
    requires k * 16 <= |probes|
  {
    var end := Min((k + 1) * 16, |probes|);
    Batch(network, Devices(probes[k * 16..end]), end)
  }

  /** Batch `k` of the list is the `k`-th batch of the completions. */
  ghost predicate AllBatches(network: Network, probes: seq<Probe>, batches: seq<Batch>) {
    forall k :: 0 <= k < |batches| ==> k * 16 <= |probes| && batches[k] == BatchAt(network, probes, k)
  }

  lemma BatchBoundary(k: nat, completed: nat)
    requires k * 16 < completed <= (k + 1) * 16
    ensures completed % 16 == 0 <==> completed == (k + 1) * 16
  {
  }

  /** The three accumulators of the completion loop after `done` completions. */
  ghost predicate PoolState(network: Network, probes: seq<Probe>, done: nat,
                            devices: seq<Device>, batch: seq<Device>, batches: seq<Batch>) {
    && done <= |probes|
    && devices == Devices(probes[..done])
    && AllBatches(network, probes, batches)
    && if done < |probes|
       then |batches| * 16 <= done < (|batches| + 1) * 16 && batch == Devices(probes[|batches| * 16..done])
       else (|batches| - 1) * 16 < done <= |batches| * 16 && batch == []
  }

  lemma DevicesExtend(probes: seq<Probe>, from: nat, to: nat)
    requires from <= to < |probes|
    ensures Devices(probes[from..to + 1]) == Noted(Devices(probes[from..to]), probes[to])
  {
    assert probes[from..to + 1][..to - from] == probes[from..to];
  }

  lemma PoolStep(network: Network, probes: seq<Probe>, done: nat,
                 devices: seq<Device>, batch: seq<Device>, batches: seq<Batch>)
    requires PoolState(network, probes, done, devices, batch, batches) && done < |probes|
    ensures var devices', batch' := Noted(devices, probes[done]), Noted(batch, probes[done]);
            if (done + 1) % 16 == 0 || done + 1 == |probes|
            then PoolState(network, probes, done + 1, devices', [], batches + [Batch(network, batch', done + 1)])
            else PoolState(network, probes, done + 1, devices', batch', batches)
  {
    DevicesExtend(probes, 0, done);
    DevicesExtend(probes, |batches| * 16, done);
    BatchBoundary(|batches|, done + 1);
  }

  /** The completion loop. `result` is the device list, or the error of the first crashed probe. */
  method RunPool(network: Network, completions: seq<Probe>)
    returns (result: Result<seq<Device>, string>, batches: seq<Batch>)
    ensures result == if FirstCrash(completions) == |completions| then Ok(Devices(completions))
                      else Err(completions[FirstCrash(completions)].error)
    ensures |batches| == BatchCount(FirstCrash(completions), |completions|) && AllBatches(network, completions, batches)
  {
    var devices, batch, completed := [], [], 0;
    batches := [];
    while completed < |completions|
      invariant completed <= FirstCrash(completions)
      invariant PoolState(network, completions, completed, devices, batch, batches)
    {
      var item := completions[completed];
      if item.Crashed? {
        BatchCountIs(|batches|, completed, |completions|);
        return Err(item.error), batches;
      }
      PoolStep(network, completions, completed, devices, batch, batches);
      completed := completed + 1;
      if item.Reachable? {
        devices, batch := devices + [item.device], batch + [item.device];
      }
      if completed % 16 == 0 || completed == |completions| {
        batches := batches + [Batch(network, batch, completed)];
        batch := [];
      }
    }
    BatchCountIs(|batches|, completed, completed);
    assert completions[..|completions|] == completions;
    result := Ok(devices);
  }

  /** A scan of an accepted network; `completions` are the probe results in the order the pool yields them. */
  method Discover(network: Network, maxHosts: int, completions: seq<Probe>)
    returns (result: Result<Scan, string>, batches: seq<Batch>)
    ensures result.Ok? <==> Networks.AgentAccepts(network, maxHosts) && FirstCrash(completions) == |completions|
    ensures result.Ok? ==>
              result.value == Scan(network, Devices(completions), |completions|, |completions| - |Devices(completions)|)
    ensures !Networks.AgentAccepts(network, maxHosts) ==> batches == []
    ensures Networks.AgentAccepts(network, maxHosts) ==>
              && |batches| == BatchCount(FirstCrash(completions), |completions|)
              && AllBatches(network, completions, batches)
    ensures result.Err? ==>
              result.error == if Networks.AgentAccepts(network, maxHosts)
              then completions[FirstCrash(completions)].error
              else "Discovery range exceeds approved job limit"
  {
    if network.Size() > maxHosts + 2 {
      return Err("Discovery range exceeds approved job limit"), [];
    }
    if |Hosts(network)| > maxHosts {
      return Err("Discovery range exceeds approved job limit"), [];
    }
    var found;
    found, batches := RunPool(network, completions);
    if found.Err? {
      return Err(found.error), batches;
    }
    result := Ok(Scan(network, found.value, |completions|, |completions| - |found.value|));
  }

  lemma {:induction false} DevicesJoin(a: seq<Probe>, b: seq<Probe>)
    ensures Devices(a + b) == Devices(a) + Devices(b)
  {
    if b == [] {
      assert a + b == a;
    } else {
      var b' := b[..|b| - 1];
      DevicesJoin(a, b');
      assert (a + b)[..|a + b| - 1] == a + b';
    }
  }

  lemma DevicesOfOne(p: Probe)
    ensures Devices([p]) == if p.Reachable? then [p.device] else []
  {
  }

  /** All devices of a list of batches, in order. */
  function Concat(batches: seq<Batch>): seq<Device> {
    if batches == [] then [] else Concat(batches[..|batches| - 1]) + batches[|batches| - 1].devices
  }

  /** How many completions the last batch reports. */
  function Covered(batches: seq<Batch>): nat {
    if batches == [] then 0 else batches[|batches| - 1].scanned
  }

  /** After each progress call, the batches so far hold exactly the reachable hosts among the completions it reports. */
  lemma {:induction false} BatchesAccumulate(network: Network, probes: seq<Probe>, batches: seq<Batch>)
    requires AllBatches(network, probes, batches)
    ensures Covered(batches) <= |probes| && Concat(batches) == Devices(probes[..Covered(batches)])
  {
    if batches != [] {
      var k := |batches| - 1;
      BatchesAccumulate(network, probes, batches[..k]);
      assert Covered(batches[..k]) == k * 16 && batches[k] == BatchAt(network, probes, k);
      var to := Covered(batches);
      assert probes[..to] == probes[..k * 16] + probes[k * 16..to];
      DevicesJoin(probes[..k * 16], probes[k * 16..to]);
    }
  }

  lemma BatchesAreSmall(network: Network, probes: seq<Probe>, batches: seq<Batch>)
    requires AllBatches(network, probes, batches)
    ensures forall k :: 0 <= k < |batches| ==> |batches[k].devices| <= 16
  {
  }

  /** Every batch reports sixteen completions more than the one before, and the last one all of them. */
  lemma BatchesCountBySixteen(network: Network, probes: seq<Probe>, batches: seq<Batch>)
    requires AllBatches(network, probes, batches) && |batches| == BatchCount(|probes|, |probes|)
    ensures forall k :: 0 <= k < |batches| ==>
                          && batches[k].network == network
                          && batches[k].scanned == if k < |batches| - 1 then 16 * (k + 1) else |probes|
    ensures |batches| == (|probes| + 15) / 16
  {
    forall k | 0 <= k < |batches|
      ensures batches[k].scanned == if k < |batches| - 1 then 16 * (k + 1) else |probes|
    {
      assert batches[k] == BatchAt(network, probes, k);
    }
  }

  /** A finished scan's batches concatenate to its device list, and the last one counts every host. */
  lemma BatchesComplete(network: Network, probes: seq<Probe>, batches: seq<Batch>)
    requires AllBatches(network, probes, batches) && |batches| == BatchCount(|probes|, |probes|)
    ensures Concat(batches) == Devices(probes) && Covered(batches) == |probes|
  {
    BatchesAccumulate(network, probes, batches);
    if batches != [] {
      assert batches[|batches| - 1] == BatchAt(network, probes, |batches| - 1);
    }
    assert probes[..|probes|] == probes;
  }

  /** The pool runs every host of the network once: completions are the host list in some order. */
  ghost predicate RunsEveryHost(network: Network, completions: seq<Probe>) {
    multiset(Targets(completions)) == multiset(Hosts(network))
  }

  lemma {:induction false} DevicesAreProbes(probes: seq<Probe>, d: Device)
    ensures d in Devices(probes) <==> Reachable(d) in probes
  {
    if probes != [] {
      var n := |probes| - 1;
      DevicesAreProbes(probes[..n], d);
      assert probes == probes[..n] + [probes[n]];
    }
  }

  /** Exactly the hosts of the requested network are probed, and every reported device is one; as many probes
      complete as there are hosts, so no more devices are reported than the limit lets pass. */
  lemma DevicesAreHosts(network: Network, maxHosts: int, completions: seq<Probe>)
    requires RunsEveryHost(network, completions)
    ensures |completions| == |Hosts(network)|
    ensures Networks.AgentAccepts(network, maxHosts) ==> |Devices(completions)| <= maxHosts
    ensures forall d :: d in Devices(completions) ==> IsHost(network, d.target)
    ensures forall x: nat :: IsHost(network, x) <==> x in Targets(completions)
  {
    forall x: nat
      ensures IsHost(network, x) <==> x in Targets(completions)
    {
      HostsExactly(network, x);
      assert x in multiset(Targets(completions)) <==> x in multiset(Hosts(network));
    }
    assert |multiset(Targets(completions))| == |multiset(Hosts(network))|;
    forall d | d in Devices(completions)
      ensures IsHost(network, d.target)
    {
      DevicesAreProbes(completions, d);
      var i :| 0 <= i < |completions| && completions[i] == Reachable(d);
      assert Targets(completions)[i] == d.target;
      assert d.target in multiset(Targets(completions));
      HostsExactly(network, d.target);
    }
  }

  // ---------------------------------------------------------------- the worker process

  datatype Kind =
    | Ping | Monitoring | DnsLookup | ArpSnapshot | Discovery | SnmpPoll | AdEnrichment | Unsupported

  /** `timeout` is the time limit of the job. Of its payload, `cidr` is absent when it is missing or does not
      parse, `maxHosts` when it is no number, and `tuned` says that the concurrency and the time limit of a
      probe are numbers. */
  datatype Job =
    Job(id: JobId, kind: Kind, cidr: Option<Network>, maxHosts: Option<int>, tuned: bool, timeout: real)

  /** A discovery job whose payload can be read. */
  predicate Readable(job: Job) {
    job.kind == Discovery && job.cidr.Some? && job.maxHosts.Some? && job.tuned
  }

  function HostLimit(job: Job): int
    requires job.maxHosts.Some?
  {
    Networks.HostCap(job.maxHosts.value)
  }

  /** A discovery job that gets to scan. */
  predicate Scannable(job: Job) {
    Readable(job) && Networks.AgentAccepts(job.cidr.value, HostLimit(job))
  }

  datatype Finding = Scanned(scan: Scan) | Reading(text: string)

  datatype Message =
    | Progress(batch: Batch)
    | Final(source: string, finding: Finding)
    | Failure(error: string)

  function Source(kind: Kind): Option<string> {
    match kind
    case Ping | Monitoring => Some("monitoring")
    case DnsLookup => Some("dns")
    case ArpSnapshot => Some("arp")
    case Discovery => Some("discovery")
    case SnmpPoll | AdEnrichment | Unsupported => None
  }

  function ProgressOf(batches: seq<Batch>): seq<Message> {
    seq(|batches|, i requires 0 <= i < |batches| => Progress(batches[i]))
  }

  /** The batches among the messages, in order. */
  function BatchesOf(messages: seq<Message>): seq<Batch> {
    if messages == [] then []
    else
      var rest, m := BatchesOf(messages[..|messages| - 1]), messages[|messages| - 1];
      if m.Progress? then rest + [m.batch] else rest
  }

  lemma {:induction false} BatchesOfProgress(batches: seq<Batch>)
    ensures BatchesOf(ProgressOf(batches)) == batches
  {
    if batches != [] {
      var n := |batches| - 1;
      BatchesOfProgress(batches[..n]);
      assert ProgressOf(batches)[..n] == ProgressOf(batches[..n]);
    }
  }

  lemma BatchesOfOutput(batches: seq<Batch>, last: Message)
    requires !last.Progress?
    ensures BatchesOf(ProgressOf(batches) + [last]) == batches
  {
    BatchesOfProgress(batches);
    assert (ProgressOf(batches) + [last])[..|batches|] == ProgressOf(batches);
  }

  /** A finished scan of `network`, reported batch by batch. */
  ghost predicate CompleteScan(network: Network, completions: seq<Probe>, batches: seq<Batch>, scan: Scan) {
    && AllBatches(network, completions, batches) && |batches| == BatchCount(|completions|, |completions|)
    && scan == Scan(network, Devices(completions), |completions|, |completions| - |Devices(completions)|)
  }

  /** The worker's output: progress messages, then exactly one last message, a result or an error. A discovery
      result comes with the batches of a complete scan. */
  ghost predicate WorkerOutput(job: Job, completions: seq<Probe>, messages: seq<Message>) {
    && messages != []
    && (forall i :: 0 <= i < |messages| ==> (messages[i].Progress? <==> i < |messages| - 1))
    && var last := messages[|messages| - 1];
    && (last.Final? ==> Some(last.source) == Source(job.kind))
    && (last.Final? && job.kind == Discovery ==>
          && job.cidr.Some? && last.finding.Scanned?
          && CompleteScan(job.cidr.value, completions, BatchesOf(messages), last.finding.scan))
  }

  /** The scan lists every device of every batch sent, which are the devices of all completions, and counts
      every completion. */
  ghost predicate Covers(scan: Scan, completions: seq<Probe>, sent: seq<Message>) {
    && scan.devices == Concat(BatchesOf(sent)) == Devices(completions)
    && scan.scanned == |completions| && |scan.devices| + scan.unresponsive == scan.scanned
  }

  /** When the pool runs every host, exactly the hosts were probed, the scan counts them all, and it reports only
      hosts. */
  ghost predicate OfAllHosts(job: Job, completions: seq<Probe>, scan: Scan) {
    job.cidr.Some? && (RunsEveryHost(job.cidr.value, completions) ==>
                         && scan.scanned == |Hosts(job.cidr.value)|
                         && (forall x: nat :: IsHost(job.cidr.value, x) <==> x in Targets(completions))
                         && forall d :: d in scan.devices ==> IsHost(job.cidr.value, d.target))
  }

  /** The result of a scan covers all that its worker sent. */
  lemma OutputIsCovered(job: Job, completions: seq<Probe>, sent: seq<Message>)
    requires WorkerOutput(job, completions, sent) && job.kind == Discovery && sent[|sent| - 1].Final?
    ensures sent[|sent| - 1].finding.Scanned? && Covers(sent[|sent| - 1].finding.scan, completions, sent)
    ensures OfAllHosts(job, completions, sent[|sent| - 1].finding.scan)
  {
    BatchesComplete(job.cidr.value, completions, BatchesOf(sent));
    if RunsEveryHost(job.cidr.value, completions) {
      DevicesAreHosts(job.cidr.value, 0, completions);
    }
  }

  /** What a job ends with: the result, or the error that is sent instead. */
  function JobResult(job: Job, completions: seq<Probe>, reading: Result<string, string>): (r: Result<Finding, string>)
    ensures r.Ok? ==> Source(job.kind).Some?
  {
    if job.kind != Discovery then
      if Source(job.kind).None? then Err("Unsupported job type")
      else if reading.Ok? then Ok(Reading(reading.value)) else Err(reading.error)
    else if !Readable(job) then Err("Unreadable payload")
    else if !Scannable(job) then Err("Discovery range exceeds approved job limit")
    else if FirstCrash(completions) < |completions| then Err(completions[FirstCrash(completions)].error)
    else Ok(Scanned(Scan(job.cidr.value, Devices(completions), |completions|, |completions| - |Devices(completions)|)))
  }

  /** A scan is begun exactly if the payload can be read and the network has at most as many hosts as the job asks
      for and as the agent ever scans; for IPv4 the latter means a prefix of at least 20. */
  lemma ScannableExactly(job: Job)
    requires job.kind == Discovery && job.cidr.Some? && job.cidr.value.family.V4?
    ensures Scannable(job) <==>
            && job.maxHosts.Some? && job.tuned
            && |Hosts(job.cidr.value)| <= job.maxHosts.value && job.cidr.value.prefix >= 20
  {
    if job.maxHosts.Some? {
      Networks.CappedAgentAgrees(job.cidr.value, job.maxHosts.value);
      Networks.UsableHostsAreHosts(job.cidr.value);
    }
  }

  function ReadingAs(source: string, reading: Result<string, string>): Message {
    if reading.Ok? then Final(source, Reading(reading.value)) else Failure(reading.error)
  }

  function LastMessage(job: Job, completions: seq<Probe>, reading: Result<string, string>): Message {
    match JobResult(job, completions, reading)
    case Ok(finding) => Final(Source(job.kind).value, finding)
    case Err(error) => Failure(error)
  }

  /** What each kind of job ends with. */
  lemma ResultsByKind(job: Job, completions: seq<Probe>, reading: Result<string, string>)
    ensures var last := LastMessage(job, completions, reading);
            match job.kind
            case Ping | Monitoring => last == ReadingAs("monitoring", reading)
            case DnsLookup => last == ReadingAs("dns", reading)
            case ArpSnapshot => last == ReadingAs("arp", reading)
            case SnmpPoll | AdEnrichment | Unsupported => last.Failure?
            case Discovery =>
              if Scannable(job) && forall i :: 0 <= i < |completions| ==> !completions[i].Crashed?
              then last == Final("discovery", Scanned(Scan(job.cidr.value, Devices(completions), |completions|,
                                                           |completions| - |Devices(completions)|)))
              else last.Failure?
  {
  }

  method CollectScan(job: Job, completions: seq<Probe>) returns (messages: seq<Message>)
    requires Readable(job)
    ensures WorkerOutput(job, completions, messages)
    ensures messages[|messages| - 1] == LastMessage(job, completions, Err(""))
    ensures if Scannable(job)
            then |messages| - 1 == BatchCount(FirstCrash(completions), |completions|)
                 && AllBatches(job.cidr.value, completions, BatchesOf(messages))
            else |messages| == 1
  {
    var result, sent := Discover(job.cidr.value, HostLimit(job), completions);
    var last := if result.Ok? then Final("discovery", Scanned(result.value)) else Failure(result.error);
    messages := ProgressOf(sent) + [last];
    BatchesOfOutput(sent, last);
  }

  /** `completions` are the probe results in the order the pool yields them; `reading` is the outcome of
      every other kind of collection. */
  method Collect(job: Job, completions: seq<Probe>, reading: Result<string, string>) returns (messages: seq<Message>)
    ensures WorkerOutput(job, completions, messages)
    ensures messages[|messages| - 1] == LastMessage(job, completions, reading)
    ensures if Scannable(job)
            then |messages| - 1 == BatchCount(FirstCrash(completions), |completions|)
                 && AllBatches(job.cidr.value, completions, BatchesOf(messages))
            else |messages| == 1
  {
    match job.kind {
      case Discovery =>
        if job.cidr == None || job.maxHosts == None || !job.tuned {
          messages := [Failure("Unreadable payload")];
        } else {
          messages := CollectScan(job, completions);
        }
      case SnmpPoll | AdEnrichment | Unsupported =>
        messages := [Failure("Unsupported job type")];
      case _ =>
        messages := [
          if reading.Ok? then Final(Source(job.kind).value, Reading(reading.value)) else Failure(reading.error)];
    }
  }
}
