/**
  The window object `PingApp` (Projeto_Ping.py lines 69-143) with the
  state its slots update in place: the texts of the result list's rows,
  `items_map`, the Ping button's disabled flag, and the workers handed to
  the thread pool. Each method is proved to agree with the function of
  module ResultList that states its effect.
 */
module App {
  import opened Wrappers
  import opened HostParsing
  import opened Probe
  import opened ResultList

  class PingApp {
    var rows: seq<string>
    var items: Items
    var buttonDisabled: bool
    /** Every worker started on `threadpool`, oldest first. */
    var pool: seq<PingWorker>

    function Shown(): Display
      reads this
    {
      Display(rows, items, buttonDisabled)
    }

    ghost predicate Valid()
      reads this
    {
      Consistent(Shown())
    }

    /** A fresh window: empty list, no `items_map` yet, button enabled. */
    constructor ()
      ensures Valid()
      ensures rows == [] && items == NotCreated && !buttonDisabled && pool == []
    {
      rows := [];
      items := NotCreated;
      buttonDisabled := false;
      pool := [];
    }

    /** `start_ping` on the text of the host field: the hosts are parsed
        and the batch is started. */
    method StartPing(hostsText: string)
      requires Valid()
      modifies this
      ensures Valid()
      ensures Shown() == AfterStart(old(Shown()), ParseHosts(hostsText))
      ensures pool == old(pool) + Workers(ParseHosts(hostsText))
    {
      var hosts := ParseHosts(hostsText);
      StartBatch(hosts);
    }

    /** The body of `start_ping` once the hosts are known: the display
        becomes `AfterStart` of the hosts, and one worker per host is
        started, in list order (none when there is no host). */
    method StartBatch(hosts: seq<string>)
      requires Valid()
      modifies this
      ensures Valid()
      ensures Shown() == AfterStart(old(Shown()), hosts)
      ensures pool == old(pool) + Workers(hosts)
    {
      // Each path starts with `results_list.clear()` and a fresh `items_map`.
      if hosts == [] {
        rows := [NoHostsMessage];
        items := Cleared(items);
        return;
      }

      rows := [];
      items := Cleared(items);
      ListPending(hosts);
      buttonDisabled := true;
      items := Live(ItemsIndex(hosts));
      StartWorkers(hosts);
    }

    /** The first loop of `start_ping`: one "Pinging..." row per host, in
        order, appended to the cleared list. */
    method ListPending(hosts: seq<string>)
      requires rows == []
      modifies this`rows
      ensures rows == PendingRows(hosts)
    {
      var i := 0;
      while i < |hosts|
        invariant 0 <= i <= |hosts|
        invariant rows == PendingRows(hosts[..i])
      {
        PendingRowsSnoc(hosts, i);
        rows := rows + [PendingRow(hosts[i])];
        i := i + 1;
      }
      assert hosts[..i] == hosts;
    }

    /** The second loop of `start_ping`: one worker per host, started in
        order on the pool. */
    method StartWorkers(hosts: seq<string>)
      modifies this`pool
      ensures pool == old(pool) + Workers(hosts)
    {
      var i := 0;
      while i < |hosts|
        invariant 0 <= i <= |hosts|
        invariant pool == old(pool) + Workers(hosts[..i])
      {
        WorkersSnoc(hosts, i);
        pool := pool + [NewWorker(hosts[i])];
        i := i + 1;
      }
      assert hosts[..i] == hosts;
    }

    /** `update_result(host, status)`: the display becomes `AfterUpdate`,
        the fault is the exception the slot raises (if any), and no worker
        is started. */
    method UpdateResult(host: string, status: string) returns (fault: Option<SlotFault>)
      requires Valid()
      modifies this
      ensures Valid()
      ensures fault == SlotFaultOf(old(Shown()), host)
      ensures Shown() == AfterUpdate(old(Shown()), host, status)
      ensures pool == old(pool)
    {
      match items {
        case NotCreated =>
          return Some(MissingItemsMap);
        case Deleted(m) =>
          if host in m {
            return Some(DeletedItem);
          }
        case Live(m) =>
          if host in m {
            rows := rows[m[host] := ResultRow(host, status)];
          }
      }
      fault := None;
      var done := AllDone();
      if done {
        buttonDisabled := false;
      }
    }

    /** The scan of `update_result`: true exactly when no row ends with
        "Pinging...". Like `all`, it stops at the first pending row. */
    method AllDone() returns (done: bool)
      ensures done <==> AllSettled(rows)
    {
      done := true;
      var i := 0;
      while done && i < |rows|
        invariant 0 <= i <= |rows|
        invariant done <==> forall k :: 0 <= k < i ==> !IsPending(rows[k])
      {
        if IsPending(rows[i]) {
          done := false;
        }
        i := i + 1;
      }
    }
  }
}
