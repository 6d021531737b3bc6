/**
  What the window shows and how `start_ping` and `update_result`
  (Projeto_Ping.py lines 101-143) change it, as functions on a value:
  the texts of the result list's rows, the host-to-row map `items_map`,
  and whether the Ping button is disabled. The class in app.dfy performs
  the same steps in place and is proved to agree with these functions.

  Results are delivered by Qt on the GUI thread, one slot call at a time,
  so a batch's results are an arbitrary sequence of `AfterUpdate` steps
  (`Deliver`).
 */
module ResultList {
  import opened Wrappers
  import opened Text
  import opened HostParsing
  import opened Probe

  const PendingSuffix: string := "Pinging..."

  /** The single informational row shown when no host was entered. */
  const NoHostsMessage: string := "Insira os endere\U{e7}os IP ou nomes de host"

  /** `f"{host}: {status}"`: the host, then ": ", then the status. */
  function ResultRow(host: string, status: string): (row: string)
    ensures |row| == |host| + 2 + |status|
    ensures row[..|host|] == host && row[|host|..|host| + 2] == ": " && row[|host| + 2..] == status
  {
    host + ": " + status
  }

  /** `f"{host}: Pinging..."`. */
  function PendingRow(host: string): string {
    ResultRow(host, PendingSuffix)
  }

  /** `text.endswith("Pinging...")`: the row is some text followed by
      "Pinging...". */
  function IsPending(row: string): (pending: bool)
    ensures pending <==> exists head :: row == head + PendingSuffix
  {
    if EndsWith(row, PendingSuffix) then
      assert row == row[..|row| - |PendingSuffix|] + PendingSuffix;
      true
    else
      assert forall head :: (head + PendingSuffix)[|head|..] == PendingSuffix;
      false
  }

  /** The `all(...)` of `update_result`: no row is still pending. */
  predicate AllSettled(rows: seq<string>) {
    forall i :: 0 <= i < |rows| ==> !IsPending(rows[i])
  }

  predicate Distinct(hosts: seq<string>) {
    forall i, j :: 0 <= i < j < |hosts| ==> hosts[i] != hosts[j]
  }

  /** The state of `items_map`. It does not exist before the first
      non-empty batch; `result_list.clear()` deletes the items it refers to
      (a later `setText` on one raises `RuntimeError`); otherwise it maps
      each host to the index of its row. */
  datatype Items = NotCreated | Live(index: map<string, nat>) | Deleted(index: map<string, nat>)

  /** The exception that ends an `update_result` call early:
      `AttributeError` when `items_map` was never set, `RuntimeError` when
      the mapped item was deleted. */
  datatype SlotFault = MissingItemsMap | DeletedItem

  datatype Display = Display(rows: seq<string>, items: Items, buttonDisabled: bool)

  /** Every row starts with its host and says it is pending. */
  function PendingRows(hosts: seq<string>): (rows: seq<string>)
    ensures |rows| == |hosts|
    ensures forall i :: 0 <= i < |hosts| ==> rows[i] == PendingRow(hosts[i]) && IsPending(rows[i])
  {
    seq(|hosts|, i requires 0 <= i < |hosts| => PendingRow(hosts[i]))
  }

  /** Appending one host appends its pending row. */
  lemma PendingRowsSnoc(hosts: seq<string>, i: nat)
    requires i < |hosts|
    ensures PendingRows(hosts[..i + 1]) == PendingRows(hosts[..i]) + [PendingRow(hosts[i])]
  {
  }

  lemma RowStartsWithHost(host: string, status: string)
    ensures StartsWith(ResultRow(host, status), host + ": ")
  {
    assert ResultRow(host, status)[..|host + ": "|] == host + ": ";
  }

  /** A row written with a worker's status is no longer pending. */
  lemma ResultRowSettled(host: string, status: string)
    requires IsStatus(status)
    ensures !IsPending(ResultRow(host, status))
  {
    var row := ResultRow(host, status);
    assert row[|row| - 1] == status[|status| - 1];
  }

  /** The dict comprehension `{host: item(idx) for idx, host in enumerate(hosts)}`:
      its keys are the hosts, each mapped to a row holding that host, and a
      host that occurs more than once keeps only the index of its last
      occurrence. */
  function ItemsIndex(hosts: seq<string>): (m: map<string, nat>)
    ensures m.Keys == set h | h in hosts
    ensures forall h :: h in m ==> m[h] < |hosts| && hosts[m[h]] == h
    ensures forall h, j :: h in m && m[h] < j < |hosts| ==> hosts[j] != h
  {
    if hosts == [] then map[]
    else
      var n := |hosts| - 1;
      var m := ItemsIndex(hosts[..n]);
      assert forall h :: h in hosts <==> h in hosts[..n] || h == hosts[n];
      m[hosts[n] := n]
  }

  /** With distinct hosts every host is mapped to its own row. */
  lemma ItemsIndexDistinct(hosts: seq<string>, i: nat)
    requires Distinct(hosts) && i < |hosts|
    ensures hosts[i] in ItemsIndex(hosts) && ItemsIndex(hosts)[hosts[i]] == i
  {
    assert hosts[i] in ItemsIndex(hosts);
  }

  /** `items_map` is consistent with the rows: distinct hosts are mapped to
      distinct rows, and the row mapped to a host starts with that host. */
  predicate Consistent(d: Display) {
    d.items.Live? ==>
      && (forall h :: h in d.items.index ==>
            d.items.index[h] < |d.rows| && StartsWith(d.rows[d.items.index[h]], h + ": "))
      && (forall h1, h2 :: h1 in d.items.index && h2 in d.items.index && h1 != h2 ==>
            d.items.index[h1] != d.items.index[h2])
  }

  /** `result_list.clear()` as seen by `items_map`: the items a map refers
      to no longer exist. */
  function Cleared(items: Items): (r: Items)
    ensures !r.Live?
    ensures r.NotCreated? <==> items.NotCreated?
    ensures !items.NotCreated? ==> r.index == items.index
  {
    match items
    case NotCreated => NotCreated
    case Live(m) => Deleted(m)
    case Deleted(m) => Deleted(m)
  }

  /** `start_ping` with the parsed `hosts`. No host: the list shows only the
      informational row and the button is left as it was. Otherwise: one
      pending row per host in input order, the map rebuilt from the hosts,
      the button disabled. Either way the map stays consistent with the rows. */
  function AfterStart(d: Display, hosts: seq<string>): (r: Display)
    ensures Consistent(r)
    ensures hosts == [] ==> r.rows == [NoHostsMessage] && r.items == Cleared(d.items) && r.buttonDisabled == d.buttonDisabled
    ensures hosts != [] ==> r.rows == PendingRows(hosts) && r.items == Live(ItemsIndex(hosts)) && r.buttonDisabled
  {
    if hosts == [] then
      Display([NoHostsMessage], Cleared(d.items), d.buttonDisabled)
    else
      var r := Display(PendingRows(hosts), Live(ItemsIndex(hosts)), true);
      assert Consistent(r) by {
        var m := ItemsIndex(hosts);
        forall h | h in m ensures StartsWith(r.rows[m[h]], h + ": ") {
          RowStartsWithHost(h, PendingSuffix);
        }
      }
      r
  }

  /** The exception, if any, that `update_result(host, ...)` raises. */
  function SlotFaultOf(d: Display, host: string): (fault: Option<SlotFault>)
    ensures fault == Some(MissingItemsMap) <==> d.items.NotCreated?
    ensures fault == Some(DeletedItem) <==> d.items.Deleted? && host in d.items.index
    ensures fault.None? <==> d.items.Live? || (d.items.Deleted? && host !in d.items.index)
  {
    match d.items
    case NotCreated => Some(MissingItemsMap)
    case Deleted(m) => if host in m then Some(DeletedItem) else None
    case Live(_) => None
  }

  /** `update_result(host, status)`. When the slot raises, nothing changes.
      Otherwise only the row mapped to `host` is rewritten, to
      `host: status` (no row when `host` is not mapped), and the button is
      re-enabled when no row is pending any more; otherwise it keeps its
      state. The map stays consistent with the rows. */
  function AfterUpdate(d: Display, host: string, status: string): (r: Display)
    requires Consistent(d)
    ensures Consistent(r)
    ensures r.items == d.items && |r.rows| == |d.rows|
    ensures SlotFaultOf(d, host).Some? ==> r == d
    ensures forall i :: 0 <= i < |d.rows| && !(d.items.Live? && host in d.items.index && i == d.items.index[host])
              ==> r.rows[i] == d.rows[i]
    ensures d.items.Live? && host in d.items.index ==> r.rows[d.items.index[host]] == ResultRow(host, status)
    ensures SlotFaultOf(d, host).None? ==> (r.buttonDisabled <==> d.buttonDisabled && !AllSettled(r.rows))
  {
    if SlotFaultOf(d, host).Some? then d
    else
      var rows :=
        if d.items.Live? && host in d.items.index then
          RowStartsWithHost(host, status);
          d.rows[d.items.index[host] := ResultRow(host, status)]
        else d.rows;
      Display(rows, d.items, if AllSettled(rows) then false else d.buttonDisabled)
  }

  /** The results delivered so far, applied in delivery order. */
  function Deliver(d: Display, events: seq<Emission>): (r: Display)
    requires Consistent(d)
    ensures Consistent(r)
    ensures r.items == d.items && |r.rows| == |d.rows|
    decreases |events|
  {
    if events == [] then d
    else
      var e := events[|events| - 1];
      AfterUpdate(Deliver(d, events[..|events| - 1]), e.host, e.status)
  }

  predicate Reported(events: seq<Emission>, host: string) {
    exists k :: 0 <= k < |events| && events[k].host == host
  }

  /** The status of the last result delivered for `host`, if any. */
  function LastReport(events: seq<Emission>, host: string): Option<string> {
    if events == [] then None
    else if events[|events| - 1].host == host then Some(events[|events| - 1].status)
    else LastReport(events[..|events| - 1], host)
  }

  /** `LastReport` finds a result exactly when one was delivered for the
      host, and what it finds is the status of a delivered result. */
  lemma {:induction false} LastReportFound(events: seq<Emission>, host: string)
    ensures LastReport(events, host).Some? <==> Reported(events, host)
    ensures LastReport(events, host).Some? ==> Emission(host, LastReport(events, host).value) in events
    decreases |events|
  {
    if events != [] {
      var n := |events| - 1;
      var prev := events[..n];
      LastReportFound(prev, host);
      if events[n].host != host {
        if Reported(events, host) {
          var k :| 0 <= k < |events| && events[k].host == host;
          assert prev[k].host == host;
        }
        if Reported(prev, host) {
          var k :| 0 <= k < |prev| && prev[k].host == host;
          assert events[k].host == host;
        }
        if LastReport(prev, host).Some? {
          assert Emission(host, LastReport(prev, host).value) in prev;
        }
      } else {
        assert events[n] == Emission(host, events[n].status);
      }
    }
  }

  /** The text of row `i` after `events`: its host's last status when that
      host was reported and the row is the one the map points to, pending
      otherwise. */
  function RowAfter(hosts: seq<string>, events: seq<Emission>, i: nat): string
    requires i < |hosts|
  {
    match LastReport(events, hosts[i])
    case Some(status) =>
      if ItemsIndex(hosts)[hosts[i]] == i then ResultRow(hosts[i], status) else PendingRow(hosts[i])
    case None => PendingRow(hosts[i])
  }

  function RowsAfter(hosts: seq<string>, events: seq<Emission>): (rows: seq<string>)
    ensures |rows| == |hosts|
    ensures forall i :: 0 <= i < |hosts| ==> rows[i] == RowAfter(hosts, events, i)
  {
    seq(|hosts|, i requires 0 <= i < |hosts| => RowAfter(hosts, events, i))
  }

  /** Delivering one more result rewrites at most the row the map gives
      for its host. */
  lemma RowsAfterStep(hosts: seq<string>, events: seq<Emission>)
    requires events != []
    ensures var e, m := events[|events| - 1], ItemsIndex(hosts);
            var before := RowsAfter(hosts, events[..|events| - 1]);
            RowsAfter(hosts, events)
              == if e.host in m then before[m[e.host] := ResultRow(e.host, e.status)] else before
  {
    var n := |events| - 1;
    var e, m := events[n], ItemsIndex(hosts);
    var before, after := RowsAfter(hosts, events[..n]), RowsAfter(hosts, events);
    var rows := if e.host in m then before[m[e.host] := ResultRow(e.host, e.status)] else before;
    assert |rows| == |after|;
    forall i | 0 <= i < |hosts| ensures after[i] == rows[i] {
      var h := hosts[i];
      assert h in m;
      if h == e.host {
        assert LastReport(events, h) == Some(e.status);
        if m[h] == i {
          assert after[i] == ResultRow(h, e.status);
        } else {
          assert after[i] == PendingRow(h);
          assert before[i] == PendingRow(h);
        }
      } else {
        assert LastReport(events, h) == LastReport(events[..n], h);
        assert after[i] == before[i];
        if e.host in m {
          assert i != m[e.host];
        }
      }
    }
  }

  /** Writing a settled row into settled rows leaves them settled. */
  lemma SettledUpdate(rows: seq<string>, k: nat, row: string)
    requires AllSettled(rows) && k < |rows| && !IsPending(row)
    ensures AllSettled(rows[k := row])
  {
    assert forall i :: 0 <= i < |rows| && i != k ==> rows[k := row][i] == rows[i];
  }

  /** The whole display after a non-empty batch was started and `events`
      delivered, in any order, with worker statuses: each row shows the
      last status of its host if the map points to it and the host has
      reported, and is pending otherwise; the button is disabled exactly
      while some row is pending. */
  lemma {:induction false} DeliverAfterStart(d: Display, hosts: seq<string>, events: seq<Emission>)
    requires Consistent(d) && hosts != []
    requires forall k :: 0 <= k < |events| ==> IsStatus(events[k].status)
    ensures Deliver(AfterStart(d, hosts), events)
         == Display(RowsAfter(hosts, events), Live(ItemsIndex(hosts)), !AllSettled(RowsAfter(hosts, events)))
    decreases |events|
  {
    var s := AfterStart(d, hosts);
    if events == [] {
      assert s.rows == RowsAfter(hosts, events);
      assert IsPending(s.rows[0]);
    } else {
      var n := |events| - 1;
      var prev, e := events[..n], events[n];
      DeliverAfterStart(d, hosts, prev);
      var shown := Deliver(s, prev);
      assert Deliver(s, events) == AfterUpdate(shown, e.host, e.status);
      DeliverStep(hosts, events, shown);
    }
  }

  /** One more result takes the closed form for the delivered prefix to
      the closed form for the whole sequence. */
  lemma DeliverStep(hosts: seq<string>, events: seq<Emission>, shown: Display)
    requires events != [] && IsStatus(events[|events| - 1].status)
    requires Consistent(shown)
    requires shown == Display(RowsAfter(hosts, events[..|events| - 1]), Live(ItemsIndex(hosts)),
                              !AllSettled(RowsAfter(hosts, events[..|events| - 1])))
    ensures var e := events[|events| - 1];
            AfterUpdate(shown, e.host, e.status)
              == Display(RowsAfter(hosts, events), Live(ItemsIndex(hosts)), !AllSettled(RowsAfter(hosts, events)))
  {
    var e, m := events[|events| - 1], ItemsIndex(hosts);
    var before := shown.rows;
    RowsAfterStep(hosts, events);
    ResultRowSettled(e.host, e.status);
    if AllSettled(before) && e.host in m {
      SettledUpdate(before, m[e.host], ResultRow(e.host, e.status));
    }
  }

  /** With distinct hosts, a row is settled exactly when its host has
      reported. */
  lemma DistinctRowSettled(hosts: seq<string>, events: seq<Emission>, i: nat)
    requires Distinct(hosts) && i < |hosts|
    requires forall k :: 0 <= k < |events| ==> IsStatus(events[k].status)
    ensures !IsPending(RowAfter(hosts, events, i)) <==> Reported(events, hosts[i])
  {
    var h := hosts[i];
    ItemsIndexDistinct(hosts, i);
    LastReportFound(events, h);
    match LastReport(events, h)
    case Some(status) =>
      var k :| 0 <= k < |events| && events[k] == Emission(h, status);
      ResultRowSettled(h, status);
    case None =>
      assert IsPending(PendingRows([h])[0]);
  }

  /** With distinct hosts, whatever order the results arrive in, the
      button is re-enabled exactly when every host has reported. */
  lemma DistinctBatchEnablesButton(d: Display, hosts: seq<string>, events: seq<Emission>)
    requires Consistent(d) && hosts != [] && Distinct(hosts)
    requires forall k :: 0 <= k < |events| ==> IsStatus(events[k].status)
    ensures !Deliver(AfterStart(d, hosts), events).buttonDisabled
        <==> forall i :: 0 <= i < |hosts| ==> Reported(events, hosts[i])
  {
    DeliverAfterStart(d, hosts, events);
    var rows := RowsAfter(hosts, events);
    forall i | 0 <= i < |hosts|
      ensures !IsPending(rows[i]) <==> Reported(events, hosts[i])
    {
      DistinctRowSettled(hosts, events, i);
    }
  }

  /** A host entered twice keeps only its last row in the map: its earlier
      row reads "Pinging..." forever, and so the button is never re-enabled,
      whatever results arrive. */
  lemma {:induction false} DuplicateHostStalls(d: Display, hosts: seq<string>, events: seq<Emission>, i: nat, j: nat)
    requires Consistent(d) && i < j < |hosts| && hosts[i] == hosts[j]
    ensures Deliver(AfterStart(d, hosts), events).rows[i] == PendingRow(hosts[i])
    ensures Deliver(AfterStart(d, hosts), events).buttonDisabled
    decreases |events|
  {
    var s := AfterStart(d, hosts);
    if events != [] {
      var n := |events| - 1;
      DuplicateHostStalls(d, hosts, events[..n], i, j);
      var r := Deliver(s, events);
      assert r.rows[i] == PendingRow(hosts[i]);
      assert IsPending(r.rows[i]);
    } else {
      assert s.rows[i] == PendingRow(hosts[i]);
    }
  }

  /** In a batch of distinct stripped hosts, the only result a worker
      emits for host `i` is worker `i`'s. */
  lemma EmissionOfHost(hosts: seq<string>, system: string, runner: seq<string> -> ProcessOutcome, e: Emission, i: nat)
    requires Distinct(hosts) && i < |hosts| && forall k :: 0 <= k < |hosts| ==> IsStripped(hosts[k])
    requires e in Emissions(Workers(hosts), system, runner) && e.host == hosts[i]
    ensures e == Emissions(Workers(hosts), system, runner)[i]
    ensures e == Emission(hosts[i], Classify(runner(PingCommand(system, hosts[i]))))
  {
    var es := Emissions(Workers(hosts), system, runner);
    var k :| 0 <= k < |es| && es[k] == e;
    assert NewWorker(hosts[k]).host == hosts[k];
    assert NewWorker(hosts[i]).host == hosts[i];
    assert hosts[k] == hosts[i];
  }

  /** Row `i` of a batch of distinct hosts, once its host has reported
      with a worker's result, shows that worker's probe status. */
  lemma ReportedRowOfDistinct(hosts: seq<string>, system: string,
                              runner: seq<string> -> ProcessOutcome, events: seq<Emission>, i: nat)
    requires Distinct(hosts) && i < |hosts| && forall k :: 0 <= k < |hosts| ==> IsStripped(hosts[k])
    requires forall e :: e in events ==> e in Emissions(Workers(hosts), system, runner)
    requires Reported(events, hosts[i])
    ensures RowAfter(hosts, events, i) == ResultRow(hosts[i], Classify(runner(PingCommand(system, hosts[i]))))
  {
    ItemsIndexDistinct(hosts, i);
    LastReportFound(events, hosts[i]);
    var status := LastReport(events, hosts[i]).value;
    EmissionOfHost(hosts, system, runner, Emission(hosts[i], status), i);
    RowAfterReported(hosts, events, i, status);
  }

  lemma RowAfterReported(hosts: seq<string>, events: seq<Emission>, i: nat, status: string)
    requires i < |hosts| && hosts[i] in ItemsIndex(hosts) && ItemsIndex(hosts)[hosts[i]] == i
    requires LastReport(events, hosts[i]) == Some(status)
    ensures RowAfter(hosts, events, i) == ResultRow(hosts[i], status)
  {
  }

  /** A complete batch: when the hosts are distinct and every worker's
      result has been delivered once, in any order, every row shows its
      host's probe status and the button is enabled again. */
  lemma DistinctWorkersSettle(d: Display, hosts: seq<string>, system: string,
                              runner: seq<string> -> ProcessOutcome, events: seq<Emission>)
    requires Consistent(d) && hosts != [] && Distinct(hosts)
    requires forall k :: 0 <= k < |hosts| ==> IsStripped(hosts[k])
    requires multiset(events) == multiset(Emissions(Workers(hosts), system, runner))
    ensures var r := Deliver(AfterStart(d, hosts), events);
            && !r.buttonDisabled
            && |r.rows| == |hosts|
            && forall i :: 0 <= i < |hosts| ==>
                 r.rows[i] == ResultRow(hosts[i], Classify(runner(PingCommand(system, hosts[i]))))
  {
    var es := Emissions(Workers(hosts), system, runner);
    SameElements(events, es);
    forall k | 0 <= k < |events| ensures IsStatus(events[k].status) {
      assert events[k] in es;
    }
    forall i | 0 <= i < |hosts| ensures Reported(events, hosts[i]) {
      WorkerReports(hosts, system, runner, events, i);
    }
    DeliverAfterStart(d, hosts, events);
    DistinctBatchEnablesButton(d, hosts, events);
    forall i | 0 <= i < |hosts|
      ensures RowsAfter(hosts, events)[i] == ResultRow(hosts[i], Classify(runner(PingCommand(system, hosts[i]))))
    {
      ReportedRowOfDistinct(hosts, system, runner, events, i);
    }
  }

  /** Two lists with the same multiset hold the same elements. */
  lemma SameElements<T>(xs: seq<T>, ys: seq<T>)
    requires multiset(xs) == multiset(ys)
    ensures forall x :: x in xs <==> x in ys
  {
    forall x ensures x in xs <==> x in ys {
      assert x in xs <==> x in multiset(xs);
      assert x in ys <==> x in multiset(ys);
    }
  }

  /** Worker `i`'s result is among the delivered ones, so its host has reported. */
  lemma WorkerReports(hosts: seq<string>, system: string, runner: seq<string> -> ProcessOutcome,
                      events: seq<Emission>, i: nat)
    requires i < |hosts| && IsStripped(hosts[i])
    requires forall e :: e in Emissions(Workers(hosts), system, runner) ==> e in events
    ensures Reported(events, hosts[i])
  {
    WorkerEmissionHost(hosts, system, runner, i);
    ReportedIfDelivered(Emissions(Workers(hosts), system, runner), events, i, hosts[i]);
  }

  /** The worker for a stripped host reports under that very host. */
  lemma WorkerEmissionHost(hosts: seq<string>, system: string, runner: seq<string> -> ProcessOutcome, i: nat)
    requires i < |hosts| && IsStripped(hosts[i])
    ensures Emissions(Workers(hosts), system, runner)[i].host == hosts[i]
  {
    assert NewWorker(hosts[i]).host == hosts[i];
  }

  lemma ReportedIfDelivered(es: seq<Emission>, events: seq<Emission>, i: nat, host: string)
    requires i < |es| && es[i].host == host
    requires forall e :: e in es ==> e in events
    ensures Reported(events, host)
  {
    assert es[i] in events;
    var k :| 0 <= k < |events| && events[k] == es[i];
  }

  /** The same, from the text typed into the input field. */
  lemma DistinctBatchSettles(d: Display, text: string, system: string,
                             runner: seq<string> -> ProcessOutcome, events: seq<Emission>)
    requires Consistent(d)
    requires ParseHosts(text) != [] && Distinct(ParseHosts(text))
    requires multiset(events) == multiset(Emissions(Workers(ParseHosts(text)), system, runner))
    ensures var hosts := ParseHosts(text);
            var r := Deliver(AfterStart(d, hosts), events);
            && !r.buttonDisabled
            && |r.rows| == |hosts|
            && forall i :: 0 <= i < |hosts| ==>
                 r.rows[i] == ResultRow(hosts[i], Classify(runner(PingCommand(system, hosts[i]))))
  {
    var hosts := ParseHosts(text);
    assert forall k :: 0 <= k < |hosts| ==> IsHost(hosts[k]);
    DistinctWorkersSettle(d, hosts, system, runner, events);
  }
}
