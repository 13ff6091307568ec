/** `prepare_output` and the row and map construction of `dump_cluster_spec`:
    the cluster spec the training jobs read, as CSV rows and as a JSON map. */
module ClusterSpecs {
  import opened Text
  import opened Hosts

  /** The port every worker endpoint is given. */
  const WORKER_PORT: nat := 5001
  /** The port every parameter-server endpoint is given. */
  const PS_PORT: nat := 5002

  /** The dict `{'worker': [...], 'ps': [...]}` that `prepare_output` builds;
      both keys are always present and `worker` was inserted first. */
  datatype ClusterSpec = ClusterSpec(worker: seq<string>, ps: seq<string>)

  /** One key of a dict with its list, in the dict's insertion order. */
  datatype Entry = Entry(role: string, endpoints: seq<string>)

  datatype Option<T> = None | Some(value: T)

  /** `f"{host}:{port}"`. */
  function Endpoint(host: string, port: nat): string
  {
    host + ":" + DecimalString(port)
  }

  /** The two port numbers print as their four digits. */
  lemma PortTexts()
    ensures DecimalString(WORKER_PORT) == "5001"
    ensures DecimalString(PS_PORT) == "5002"
  {
    DecimalOf500();
    assert DecimalString(5001) == DecimalString(500) + ["0123456789"[1]];
    assert DecimalString(5002) == DecimalString(500) + ["0123456789"[2]];
  }

  lemma DecimalOf500()
    ensures DecimalString(500) == "500"
  {
    assert DecimalString(5) == ["0123456789"[5]] == "5";
    assert DecimalString(50) == DecimalString(5) + ["0123456789"[0]];
    assert DecimalString(500) == DecimalString(50) + ["0123456789"[0]];
  }

  /** Splitting an endpoint at its last ':' gives back the host name and the port,
      whatever characters the host name holds. */
  lemma EndpointParse(host: string, port: nat)
    ensures var e := Endpoint(host, port);
      var i := LastIndexOf(e, ':');
      && i == |host|
      && e[..i] == host
      && ParseCount(e[i + 1..]) == port
  {
    var e := Endpoint(host, port);
    var digits := DecimalString(port);
    assert e[|host|] == ':';
    assert forall k :: |host| < k < |e| ==> e[k] == digits[k - |host| - 1];
    assert e[|host| + 1..] == digits;
    ParseDecimalString(port);
  }

  /** The method `prepare_output`: one endpoint per host with the role's port,
      appended in host order. */
  method PrepareOutput(workers: seq<Host>, ps: seq<Host>) returns (spec: ClusterSpec)
    ensures |spec.worker| == |workers| && |spec.ps| == |ps|
    ensures forall i :: 0 <= i < |workers| ==> spec.worker[i] == workers[i].name + ":5001"
    ensures forall i :: 0 <= i < |ps| ==> spec.ps[i] == ps[i].name + ":5002"
  {
    PortTexts();
    var w: seq<string> := [];
    for i := 0 to |workers|
      invariant |w| == i
      invariant forall k :: 0 <= k < i ==> w[k] == workers[k].name + ":5001"
    {
      w := w + [Endpoint(workers[i].name, WORKER_PORT)];
    }
    var p: seq<string> := [];
    for i := 0 to |ps|
      invariant |p| == i
      invariant forall k :: 0 <= k < i ==> p[k] == ps[k].name + ":5002"
    {
      p := p + [Endpoint(ps[i].name, PS_PORT)];
    }
    spec := ClusterSpec(w, p);
  }

  /** `cluster_spec.items()`: worker first, then ps. */
  function Items(spec: ClusterSpec): seq<Entry>
  {
    [Entry("worker", spec.worker), Entry("ps", spec.ps)]
  }

  /** One CSV line: the endpoint with every ':' turned into ',', a ',', the role, a newline. */
  function Row(x: string, role: string): string
  {
    ReplaceChar(x, ':', ',') + "," + role + "\n"
  }

  /** The lines written for one role's endpoints, in list order. */
  function Rows(xs: seq<string>, role: string): (r: seq<string>)
    ensures |r| == |xs|
    ensures forall i :: 0 <= i < |xs| ==> r[i] == Row(xs[i], role)
  {
    if xs == [] then [] else [Row(xs[0], role)] + Rows(xs[1..], role)
  }

  /** The lines written for every entry of a dict, in its order. */
  function RowsOf(items: seq<Entry>): seq<string>
  {
    if items == [] then [] else Rows(items[0].endpoints, items[0].role) + RowsOf(items[1..])
  }

  /** The dict after `del d[key]`: the entry for `key` removed, the rest in order. */
  function RemoveKey(m: seq<Entry>, key: string): (r: seq<Entry>)
    ensures |r| <= |m|
    ensures forall e :: e in r <==> e in m && e.role != key
  {
    if m == [] then []
    else (if m[0].role == key then [] else [m[0]]) + RemoveKey(m[1..], key)
  }

  /** The value `d.get(key)`, for the first entry with that key. */
  function Lookup(m: seq<Entry>, key: string): Option<seq<string>>
  {
    if m == [] then None
    else if m[0].role == key then Some(m[0].endpoints)
    else Lookup(m[1..], key)
  }

  /** The map that goes into the JSON file: the entries whose list is not empty. */
  function JsonMap(spec: ClusterSpec): (r: seq<Entry>)
    ensures forall e :: e in r <==> e in Items(spec) && e.endpoints != []
  {
    (if spec.worker == [] then [] else [Entry("worker", spec.worker)])
      + (if spec.ps == [] then [] else [Entry("ps", spec.ps)])
  }

  /** The method `dump_cluster_spec` without the files: the CSV lines in the
      order they are written, and the dict once its empty roles are deleted. */
  method DumpClusterSpec(spec: ClusterSpec) returns (rows: seq<string>, json: seq<Entry>)
    ensures rows == Rows(spec.worker, "worker") + Rows(spec.ps, "ps")
    ensures json == JsonMap(spec)
  {
    var items := Items(spec);
    rows := WriteRows(items);
    RowsOfItems(spec);
    json := items;
    if spec.worker == [] {
      json := RemoveKey(json, "worker");
    }
    if spec.ps == [] {
      json := RemoveKey(json, "ps");
    }
    DeleteEmptyRoles(spec);
  }

  /** The outer loop over `cluster_spec.items()`. */
  method WriteRows(items: seq<Entry>) returns (rows: seq<string>)
    ensures rows == RowsOf(items)
  {
    rows := [];
    for k := 0 to |items|
      invariant rows == RowsOf(items[..k])
    {
      rows := WriteEntryRows(rows, items[k]);
      RowsOfSnoc(items[..k], items[k]);
      assert items[..k + 1] == items[..k] + [items[k]];
    }
    assert items[..|items|] == items;
  }

  /** The inner loop: one line per endpoint of `e`, appended in list order. */
  method WriteEntryRows(written: seq<string>, e: Entry) returns (rows: seq<string>)
    ensures rows == written + Rows(e.endpoints, e.role)
  {
    rows := written;
    for j := 0 to |e.endpoints|
      invariant rows == written + Rows(e.endpoints[..j], e.role)
    {
      RowsSnoc(e.endpoints[..j], e.role, e.endpoints[j]);
      assert e.endpoints[..j + 1] == e.endpoints[..j] + [e.endpoints[j]];
      rows := rows + [Row(e.endpoints[j], e.role)];
    }
    assert e.endpoints[..|e.endpoints|] == e.endpoints;
  }

  lemma RowsOfItems(spec: ClusterSpec)
    ensures RowsOf(Items(spec)) == Rows(spec.worker, "worker") + Rows(spec.ps, "ps")
  {
    var items := Items(spec);
    assert items[1..] == [Entry("ps", spec.ps)];
    assert RowsOf(items[1..]) == Rows(spec.ps, "ps") + RowsOf([]);
  }

  /** The two `del` statements leave exactly the entries with a non-empty list. */
  lemma DeleteEmptyRoles(spec: ClusterSpec)
    ensures var afterWorker := if spec.worker == [] then RemoveKey(Items(spec), "worker") else Items(spec);
      (if spec.ps == [] then RemoveKey(afterWorker, "ps") else afterWorker) == JsonMap(spec)
  {
    var w, p := Entry("worker", spec.worker), Entry("ps", spec.ps);
    assert "worker" != "ps";
    assert RemoveKey([w, p], "worker") == [p] by {
      assert [w, p][1..] == [p];
      assert RemoveKey([p], "worker") == [p] + RemoveKey([], "worker");
    }
    assert RemoveKey([w, p], "ps") == [w] by {
      assert [w, p][1..] == [p];
    }
    assert RemoveKey([p], "ps") == [];
  }

  lemma {:induction false} RowsSnoc(xs: seq<string>, role: string, x: string)
    ensures Rows(xs + [x], role) == Rows(xs, role) + [Row(x, role)]
  {
    if xs != [] {
      assert (xs + [x])[1..] == xs[1..] + [x];
      RowsSnoc(xs[1..], role, x);
    }
  }

  lemma {:induction false} RowsOfSnoc(items: seq<Entry>, e: Entry)
    ensures RowsOf(items + [e]) == RowsOf(items) + Rows(e.endpoints, e.role)
  {
    if items == [] {
      assert RowsOf([e]) == Rows(e.endpoints, e.role) + RowsOf([]);
    } else {
      assert (items + [e])[1..] == items[1..] + [e];
      RowsOfSnoc(items[1..], e);
    }
  }

  /** The JSON map has a key for a role exactly when that role has an
      endpoint, and then holds the role's list unchanged. */
  lemma JsonKeys(spec: ClusterSpec)
    ensures Lookup(JsonMap(spec), "worker") == if spec.worker == [] then None else Some(spec.worker)
    ensures Lookup(JsonMap(spec), "ps") == if spec.ps == [] then None else Some(spec.ps)
  {
    assert "worker" != "ps";
  }

  /** Deleting the empty roles loses no CSV line: the CSV lists exactly the
      endpoints of the JSON map, in the same order. */
  lemma CsvMatchesJson(spec: ClusterSpec)
    ensures RowsOf(JsonMap(spec)) == Rows(spec.worker, "worker") + Rows(spec.ps, "ps")
  {
    var w := if spec.worker == [] then [] else [Entry("worker", spec.worker)];
    var p := if spec.ps == [] then [] else [Entry("ps", spec.ps)];
    RowsOfConcat(w, p);
    assert RowsOf(w) == Rows(spec.worker, "worker") by {
      if w != [] {
        assert RowsOf(w) == Rows(spec.worker, "worker") + RowsOf([]);
      }
    }
    assert RowsOf(p) == Rows(spec.ps, "ps") by {
      if p != [] {
        assert RowsOf(p) == Rows(spec.ps, "ps") + RowsOf([]);
      }
    }
  }

  lemma {:induction false} RowsOfConcat(a: seq<Entry>, b: seq<Entry>)
    ensures RowsOf(a + b) == RowsOf(a) + RowsOf(b)
  {
    if a == [] {
      assert a + b == b;
    } else {
      assert (a + b)[1..] == a[1..] + b;
      RowsOfConcat(a[1..], b);
    }
  }

  /** Reads a CSV line back: the role after the last ',', and the endpoint
      before it with ',' turned back into ':'. */
  function ParseRow(line: string): (r: Option<Entry>)
    ensures r.Some? ==> |r.value.endpoints| == 1
  {
    if line == [] || line[|line| - 1] != '\n' then None
    else
      var body := line[..|line| - 1];
      var i := LastIndexOf(body, ',');
      if i < 0 then None
      else Some(Entry(body[i + 1..], [ReplaceChar(body[..i], ',', ':')]))
  }

  /** A line reads back as the endpoint and role it was written from, when
      neither holds a ','. */
  lemma RowRoundTrip(x: string, role: string)
    requires ',' !in x && ',' !in role
    ensures ParseRow(Row(x, role)) == Some(Entry(role, [x]))
  {
    var line := Row(x, role);
    var y := ReplaceChar(x, ':', ',');
    var body := line[..|line| - 1];
    assert body == y + "," + role;
    assert body[|y|] == ',';
    forall k | |y| < k < |body| ensures body[k] != ',' {
      assert body[k] == role[k - |y| - 1];
    }
    var i := LastIndexOf(body, ',');
    assert i == |y|;
    assert body[..i] == y;
    assert body[i + 1..] == role;
    ReplaceCharRoundTrip(x, ':', ',');
  }
}
