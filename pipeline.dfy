/** `main` without its I/O: the host records (which `parse_info_table` reads
    from `qhost`) come in as a parameter, and the CSV lines and JSON map come
    out instead of being written to `grid_logs`. */
module Pipeline {
  import opened Hosts
  import opened Eligibility
  import opened Allocation
  import opened ClusterSpecs

  datatype Outcome = Written(rows: seq<string>, json: seq<Entry>) | Failed(error: SplitError)

  /** The CSV lines and JSON map written for workers `w` and parameter
      servers `p`: one line per host, workers first, each naming the host,
      its port and its role, and a JSON key for each role that has a host,
      worker before ps, and no other key. */
  ghost predicate Publishes(w: seq<Host>, p: seq<Host>, rows: seq<string>, json: seq<Entry>)
  {
    && |rows| == |w| + |p|
    && (forall i :: 0 <= i < |w| ==> rows[i] == Row(w[i].name + ":5001", "worker"))
    && (forall i :: 0 <= i < |p| ==> rows[|w| + i] == Row(p[i].name + ":5002", "ps"))
    && json == JsonMap(ClusterSpec(Endpoints(w, ":5001"), Endpoints(p, ":5002")))
    && Lookup(json, "worker") == (if w == [] then None else Some(Endpoints(w, ":5001")))
    && Lookup(json, "ps") == (if p == [] then None else Some(Endpoints(p, ":5002")))
  }

  /** `prepare_output` followed by `dump_cluster_spec`. */
  method Publish(w: seq<Host>, p: seq<Host>) returns (rows: seq<string>, json: seq<Entry>)
    ensures Publishes(w, p, rows, json)
  {
    var spec := PrepareOutput(w, p);
    assert spec.worker == Endpoints(w, ":5001");
    assert spec.ps == Endpoints(p, ":5002");
    rows, json := DumpClusterSpec(spec);
    JsonKeys(spec);
  }

  /** Filter, split, build the cluster spec and serialise it. A failed split
      ends the run with its error. */
  method SplitResources(hosts: seq<Host>, allowed: set<string>, ignoreLines: seq<string>, workers: int, ps: int)
    returns (out: Outcome)
    ensures var split := Allocate(Eligible(hosts, allowed, IgnoreEntries(ignoreLines)), workers, ps);
      && (split.Err? ==> out == Failed(split.error))
      && (split.Ok? ==> out.Written? && Publishes(split.value.workers, split.value.ps, out.rows, out.json))
  {
    var kept := RemoveInvalidQueues(hosts, allowed, ignoreLines);
    var split := SplitHosts(kept, workers, ps);
    if split.Err? {
      return Failed(split.error);
    }
    var rows, json := Publish(split.value.workers, split.value.ps);
    out := Written(rows, json);
  }

  /** Each host's name followed by `suffix`. */
  function Endpoints(hs: seq<Host>, suffix: string): (r: seq<string>)
    ensures |r| == |hs|
    ensures forall i :: 0 <= i < |hs| ==> r[i] == hs[i].name + suffix
  {
    if hs == [] then [] else [hs[0].name + suffix] + Endpoints(hs[1..], suffix)
  }
}
