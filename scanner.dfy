/**
 The scan itself: a reverse DNS lookup per host, one ping per host, the
 active/inactive tally and the flattening of the results into CSV rows.

 The network is not modelled. `ping` stands for the exit code of
 `ping -c 1 <host>` and `lookup` for the outcome of
 `socket.gethostbyaddr(host)`; both are parameters of the scan, so the same
 host gets the same answer throughout one scan.
 */
module Scanner {
  import opened Wrappers
  import opened Text

  /** The outcome of `socket.gethostbyaddr(ip)`. */
  datatype Lookup =
    | Resolved(name: string, aliasList: seq<string>, addressList: seq<string>)
    | HostError     // `socket.herror`: the address has no PTR record
    | AddressError  // `socket.gaierror`: the address itself is refused

  const NO_PTR_RECORD: string := "No PTR record found"
  const INVALID_ADDRESS: string := "Invalid IP address"

  /**
   The dictionary `reverseDNS` returns. A missing "error" key is `None`,
   and a hostname of Python's `None` is `None` as well.
   */
  datatype DnsInfo = DnsInfo(
    ip: string,
    hostname: Option<string>,
    aliases: seq<string>,
    addresses: seq<string>,
    error: Option<string>)

  /**
   The two shapes a lookup record can have: a resolved name with no error,
   or no name, no aliases, no addresses and one of the two error messages.
   */
  predicate WellShaped(info: DnsInfo)
  {
    match info.error
    case None => info.hostname.Some?
    case Some(e) =>
      && info.hostname == None && info.aliases == [] && info.addresses == []
      && (e == NO_PTR_RECORD || e == INVALID_ADDRESS)
  }

  /** `reverseDNS(ip)`, given what the resolver answered for ip. */
  function ReverseDNS(ip: string, answer: Lookup): (info: DnsInfo)
    ensures info.ip == ip
    ensures WellShaped(info)
    ensures info.error == None <==> answer.Resolved?
    ensures answer.Resolved? ==>
      info.hostname == Some(answer.name) && info.aliases == answer.aliasList && info.addresses == answer.addressList
    ensures answer == HostError ==> info.error == Some(NO_PTR_RECORD)
    ensures answer == AddressError ==> info.error == Some(INVALID_ADDRESS)
  {
    match answer
    case Resolved(name, aliasList, addressList) => DnsInfo(ip, Some(name), aliasList, addressList, None)
    case HostError => DnsInfo(ip, None, [], [], Some(NO_PTR_RECORD))
    case AddressError => DnsInfo(ip, None, [], [], Some(INVALID_ADDRESS))
  }

  const ACTIVE: string := "active"
  const INACTIVE: string := "inactive"

  /** One entry of the list `runList` returns. */
  datatype ScanResult = ScanResult(ip: string, status: string, dns: DnsInfo)

  /** A host is active exactly when its ping exited with code 0. */
  function Status(pingCode: int): (status: string)
    ensures status == ACTIVE <==> pingCode == 0
    ensures status == ACTIVE || status == INACTIVE
  {
    if pingCode == 0 then ACTIVE else INACTIVE
  }

  /** What the scan records for one host. */
  function ScanHost(host: string, ping: string -> int, lookup: string -> Lookup): (r: ScanResult)
    ensures r.ip == host && r.dns.ip == host
    ensures r.status == ACTIVE <==> ping(host) == 0
    ensures WellShaped(r.dns)
  {
    ScanResult(host, Status(ping(host)), ReverseDNS(host, lookup(host)))
  }

  /**
   The results of scanning the hosts in order, one entry appended per host;
   every status is "active" or "inactive".
   */
  function Scan(hosts: seq<string>, ping: string -> int, lookup: string -> Lookup): (results: seq<ScanResult>)
    ensures |results| == |hosts|
    ensures TwoStatuses(results)
  {
    if |hosts| == 0 then []
    else
      var init := Scan(hosts[..|hosts| - 1], ping, lookup);
      var results := init + [ScanHost(hosts[|hosts| - 1], ping, lookup)];
      assert forall i :: 0 <= i < |init| ==> results[i] == init[i];
      results
  }

  /** How many results carry the given status. */
  function CountStatus(results: seq<ScanResult>, status: string): nat
  {
    if |results| == 0 then 0
    else CountStatus(results[..|results| - 1], status) + (if results[|results| - 1].status == status then 1 else 0)
  }

  /** Scanning one more host appends its result. */
  lemma ScanAppend(hosts: seq<string>, i: nat, ping: string -> int, lookup: string -> Lookup)
    requires i < |hosts|
    ensures Scan(hosts[..i + 1], ping, lookup) == Scan(hosts[..i], ping, lookup) + [ScanHost(hosts[i], ping, lookup)]
  {
    assert hosts[..i + 1][..i] == hosts[..i];
  }

  /** Appending a result adds one to the count of its status only. */
  lemma CountAppend(results: seq<ScanResult>, r: ScanResult, status: string)
    ensures CountStatus(results + [r], status) == CountStatus(results, status) + (if r.status == status then 1 else 0)
  {
    assert (results + [r])[..|results|] == results;
  }

  /**
   The scan keeps the hosts' order, one result per host: result i is for
   host i, is "active" exactly when host i answered the ping, and carries the
   lookup record of host i.
   */
  lemma {:induction false} ScanOrder(hosts: seq<string>, ping: string -> int, lookup: string -> Lookup)
    ensures |Scan(hosts, ping, lookup)| == |hosts|
    ensures forall i :: 0 <= i < |hosts| ==>
      && Scan(hosts, ping, lookup)[i].ip == hosts[i]
      && (Scan(hosts, ping, lookup)[i].status == ACTIVE <==> ping(hosts[i]) == 0)
      && Scan(hosts, ping, lookup)[i].dns == ReverseDNS(hosts[i], lookup(hosts[i]))
  {
    if |hosts| > 0 {
      var init := hosts[..|hosts| - 1];
      ScanOrder(init, ping, lookup);
      forall i | 0 <= i < |init|
        ensures init[i] == hosts[i]
      {
      }
    }
  }

  /** Every status is "active" or "inactive". */
  predicate TwoStatuses(results: seq<ScanResult>)
  {
    forall i :: 0 <= i < |results| ==> results[i].status == ACTIVE || results[i].status == INACTIVE
  }

  /** When every status is one of the two, the two counts add up to the number of results. */
  lemma {:induction false} CountsPartition(results: seq<ScanResult>)
    requires TwoStatuses(results)
    ensures CountStatus(results, ACTIVE) + CountStatus(results, INACTIVE) == |results|
  {
    if |results| > 0 {
      var init := results[..|results| - 1];
      assert TwoStatuses(init) by {
        forall i | 0 <= i < |init|
          ensures init[i].status == ACTIVE || init[i].status == INACTIVE
        {
          assert init[i] == results[i];
        }
      }
      CountsPartition(init);
    }
  }

  /** How many of the hosts answer the ping. */
  function CountReachable(hosts: seq<string>, ping: string -> int): nat
  {
    if |hosts| == 0 then 0
    else (if ping(hosts[0]) == 0 then 1 else 0) + CountReachable(hosts[1..], ping)
  }

  /**
   The tally of a scan: "active" results are the hosts that answered the
   ping, "inactive" ones the rest, and together they cover every host.
   */
  lemma {:induction false} ScanCounts(hosts: seq<string>, ping: string -> int, lookup: string -> Lookup)
    ensures CountStatus(Scan(hosts, ping, lookup), ACTIVE) == CountReachable(hosts, ping)
    ensures CountStatus(Scan(hosts, ping, lookup), INACTIVE) == |hosts| - CountReachable(hosts, ping)
  {
    if |hosts| > 0 {
      var init, last := hosts[..|hosts| - 1], hosts[|hosts| - 1];
      var r := ScanHost(last, ping, lookup);
      assert Scan(hosts, ping, lookup) == Scan(init, ping, lookup) + [r];
      ScanCounts(init, ping, lookup);
      CountAppend(Scan(init, ping, lookup), r, ACTIVE);
      CountAppend(Scan(init, ping, lookup), r, INACTIVE);
      ReachableSnoc(init, last, ping);
      assert init + [last] == hosts;
      ReachableBound(init, ping);
    }
  }

  /** Counting the reachable hosts from the end gives the same count. */
  lemma {:induction false} ReachableSnoc(hosts: seq<string>, h: string, ping: string -> int)
    ensures CountReachable(hosts + [h], ping) == CountReachable(hosts, ping) + (if ping(h) == 0 then 1 else 0)
  {
    if |hosts| > 0 {
      ReachableSnoc(hosts[1..], h, ping);
      assert (hosts + [h])[1..] == hosts[1..] + [h];
    }
  }

  lemma {:induction false} ReachableBound(hosts: seq<string>, ping: string -> int)
    ensures CountReachable(hosts, ping) <= |hosts|
  {
    if |hosts| > 0 {
      ReachableBound(hosts[1..], ping);
    }
  }

  /** The dictionary `exportToCSV` builds for one result, one string per CSV column. */
  datatype Row = Row(
    ipAddress: string,
    status: string,
    hostname: string,
    aliases: string,
    addresses: string,
    dnsError: string)

  /** `dns.get("hostname") or ""`: Python's `None` and "" both become "". */
  function HostnameCell(hostname: Option<string>): (cell: string)
    ensures hostname.Some? ==> cell == hostname.value
    ensures hostname.None? ==> cell == ""
  {
    match hostname
    case None => ""
    case Some(h) => if h == "" then "" else h
  }

  /**
   The row of one result: absent values become "" and lists are joined with
   ", ". For a lookup record of either shape, the DNS Error column is empty
   exactly when the lookup succeeded, and a failed lookup leaves the Hostname,
   Aliases and Addresses columns empty.
   */
  function RowOf(r: ScanResult): (row: Row)
    ensures row.ipAddress == r.ip && row.status == r.status
    ensures WellShaped(r.dns) ==> (row.dnsError == "" <==> r.dns.error.None?)
    ensures WellShaped(r.dns) && r.dns.error.Some? ==>
      row.hostname == "" && row.aliases == "" && row.addresses == "" && row.dnsError == r.dns.error.value
  {
    Row(r.ip, r.status, HostnameCell(r.dns.hostname),
        Join(r.dns.aliases, ", "), Join(r.dns.addresses, ", "), r.dns.error.GetOr(""))
  }

  /**
   A host's row against its lookup: the DNS Error column is empty exactly when
   the lookup resolved; a resolved row carries the name and the joined lists,
   and a failed one has empty Hostname, Aliases and Addresses columns and the
   error message.
   */
  lemma RowOfLookup(host: string, status: string, answer: Lookup)
    ensures var row := RowOf(ScanResult(host, status, ReverseDNS(host, answer)));
      && row.ipAddress == host && row.status == status
      && (row.dnsError == "" <==> answer.Resolved?)
      && (answer.Resolved? ==>
            row.hostname == answer.name
            && row.aliases == Join(answer.aliasList, ", ") && row.addresses == Join(answer.addressList, ", "))
      && (!answer.Resolved? ==> row.hostname == "" && row.aliases == "" && row.addresses == "")
      && (answer == HostError ==> row.dnsError == NO_PTR_RECORD)
      && (answer == AddressError ==> row.dnsError == INVALID_ADDRESS)
  {
  }

  /** The rows loop of `exportToCSV`: one row per result, in order. */
  method ExportRows(results: seq<ScanResult>) returns (rows: seq<Row>)
    ensures |rows| == |results|
    ensures forall i :: 0 <= i < |results| ==> rows[i] == RowOf(results[i])
  {
    rows := [];
    for i := 0 to |results|
      invariant |rows| == i
      invariant forall j :: 0 <= j < i ==> rows[j] == RowOf(results[j])
    {
      rows := rows + [RowOf(results[i])];
    }
  }

  /**
   `runList`: ping and look up every host in order, tally the reachable and
   unreachable ones, and flatten the results into rows when the export is
   requested. The summary line prints `active` and `inactive`.
   */
  method RunList(hosts: seq<string>, exportCsv: bool, ping: string -> int, lookup: string -> Lookup)
    returns (results: seq<ScanResult>, active: nat, inactive: nat, rows: Option<seq<Row>>)
    ensures results == Scan(hosts, ping, lookup)
    ensures active == CountStatus(results, ACTIVE) && inactive == CountStatus(results, INACTIVE)
    ensures active + inactive == |hosts|
    ensures active == CountReachable(hosts, ping)
    ensures rows.Some? <==> exportCsv
    ensures rows.Some? ==>
      |rows.value| == |results| && forall i :: 0 <= i < |results| ==> rows.value[i] == RowOf(results[i])
  {
    active, inactive := 0, 0;
    results := [];
    for i := 0 to |hosts|
      invariant results == Scan(hosts[..i], ping, lookup)
      invariant active == CountStatus(results, ACTIVE) && inactive == CountStatus(results, INACTIVE)
      invariant active + inactive == i
    {
      var host := hosts[i];
      var reachable := ping(host) == 0;
      var dnsInfo := ReverseDNS(host, lookup(host));
      var status;
      if reachable {
        active := active + 1;
        status := ACTIVE;
      } else {
        inactive := inactive + 1;
        status := INACTIVE;
      }
      ScanAppend(hosts, i, ping, lookup);
      CountAppend(results, ScanResult(host, status, dnsInfo), ACTIVE);
      CountAppend(results, ScanResult(host, status, dnsInfo), INACTIVE);
      results := results + [ScanResult(host, status, dnsInfo)];
    }
    assert hosts[..|hosts|] == hosts;
    ScanCounts(hosts, ping, lookup);
    if exportCsv {
      var flat := ExportRows(results);
      rows := Some(flat);
    } else {
      rows := None;
    }
  }
}
