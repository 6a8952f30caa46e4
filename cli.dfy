/**
 * The command line front end: two positional arguments, CMD and OUTLET|all,
 * checked in order (argument count, then the outlet, then the command), then
 * exactly one switch operation, and the process exit code.
 *
 * The flags (address, port, user, password) arrive already parsed, as a
 * WebSwitch value. Reading the outlet number with `%d` is the parameter
 * `scan`, an arbitrary function from the argument to an int; a failed read
 * leaves the outlet number at 0, which is one of the values `scan` may give.
 */
module Cli {
  import opened Wrappers
  import opened PowerSwitch

  /**
   * The outlet argument, once it has passed the range check. Only the exact
   * spellings "all" and "ALL" select all outlets; anything else is read as a
   * number, and a failed read gives 0, which the range check refuses.
   */
  function ParseTarget(s: string, scan: string -> int): (t: Option<Target>)
    ensures t == Some(All) <==> s == "all" || s == "ALL"
    ensures t.Some? && t.value.Outlet? ==> s != "all" && s != "ALL" && t.value.num == scan(s)
    ensures t.Some? && t.value.Outlet? ==> OutletFirst <= t.value.num <= OutletLast
    ensures t.None? <==> s != "all" && s != "ALL" && !(OutletFirst <= scan(s) <= OutletLast)
  {
    if s == "all" || s == "ALL" then Some(All)
    else if OutletFirst <= scan(s) <= OutletLast then Some(Outlet(scan(s)))
    else None
  }

  /** The command argument: only the exact lower-case and upper-case spellings are known. */
  function ParseCommand(s: string): (c: Option<Command>)
    ensures c == Some(On) <==> s == "on" || s == "ON"
    ensures c == Some(Off) <==> s == "off" || s == "OFF"
    ensures c == Some(Cycle) <==> s == "cycle" || s == "CYCLE"
  {
    if s == "on" || s == "ON" then Some(On)
    else if s == "off" || s == "OFF" then Some(Off)
    else if s == "cycle" || s == "CYCLE" then Some(Cycle)
    else None
  }

  /**
   * The switch operation a (command, target) pair selects. It sends one to
   * eight requests; anything but all-on sends exactly the one request written
   * for that instruction.
   */
  function Perform(ws: WebSwitch, c: Command, t: Target, net: Transport): (e: Exchange)
    ensures 1 <= |e.sent| <= OutletLast
    ensures (c, t) != (On, All) ==>
      e.sent == [NewRequest(ws, "GET", PathFor(Instruction(t, c)))] && e.status == net(e.sent[0])
  {
    match (c, t)
    case (On, All) => AllOn(ws, net)
    case (On, Outlet(n)) => OutletOn(ws, n, net)
    case (Off, All) => OutletAllOff(ws, net)
    case (Off, Outlet(n)) => OutletOff(ws, n, net)
    case (Cycle, All) => OutletCycleAll(ws, net)
    case (Cycle, Outlet(n)) => OutletCycle(ws, n, net)
  }

  /** The exit code of a dispatched operation: 1 on a transport error, 0 otherwise. */
  function ExitCode(st: Status): (code: int)
    ensures code == 0 <==> st == Delivered
    ensures code == 1 <==> st.Failed?
  {
    if st.Failed? then 1 else 0
  }

  /**
   * One run of the program: the requests it sends, in order, and its exit code.
   */
  method Run(ws: WebSwitch, args: seq<string>, scan: string -> int, net: Transport)
    returns (sent: seq<Request>, exit: int)
    ensures exit == 2 <==> |args| != 2
    ensures |args| != 2 ==> sent == []
    ensures |args| == 2 && ParseTarget(args[1], scan).None? ==> exit == 1 && sent == []
    ensures |args| == 2 && ParseTarget(args[1], scan).Some? && ParseCommand(args[0]).None? ==>
      exit == 1 && sent == []
    ensures |args| == 2 && ParseTarget(args[1], scan).Some? && ParseCommand(args[0]).Some? ==>
      var e := Perform(ws, ParseCommand(args[0]).value, ParseTarget(args[1], scan).value, net);
      sent == e.sent && exit == ExitCode(e.status)
  {
    if |args| == 2 {
      var allOutlets := args[1] == "all" || args[1] == "ALL";
      var outletNum := 0;
      if !allOutlets {
        outletNum := scan(args[1]);
        if outletNum < OutletFirst || outletNum > OutletLast {
          return [], 1;
        }
      }
      ghost var t := if allOutlets then All else Outlet(outletNum);
      assert ParseTarget(args[1], scan) == Some(t);
      var e: Exchange;
      match ParseCommand(args[0]) {
        case Some(On) =>
          if allOutlets {
            e := OutletAllOn(ws, net);
          } else {
            e := OutletOn(ws, outletNum, net);
          }
          assert e == Perform(ws, On, t, net);
        case Some(Off) =>
          if allOutlets {
            e := OutletAllOff(ws, net);
          } else {
            e := OutletOff(ws, outletNum, net);
          }
          assert e == Perform(ws, Off, t, net);
        case Some(Cycle) =>
          if allOutlets {
            e := OutletCycleAll(ws, net);
          } else {
            e := OutletCycle(ws, outletNum, net);
          }
          assert e == Perform(ws, Cycle, t, net);
        case None =>
          return [], 1;
      }
      sent := e.sent;
      exit := if e.status.Failed? then 1 else 0;
    } else {
      return [], 2;
    }
  }

  /** An authenticated GET whose URL asks this switch for command c. */
  predicate AsksFor(ws: WebSwitch, r: Request, c: Command) {
    && r.verb == "GET" && r.username == ws.username && r.password == ws.password
    && Decode(ws, r.url).Some? && Decode(ws, r.url).value.command == c
  }

  /**
   * Whatever the command and target, every request sent is an authenticated
   * GET that asks this switch for that command, and only all-on sends more
   * than one.
   */
  lemma PerformRequests(ws: WebSwitch, c: Command, t: Target, net: Transport)
    ensures var e := Perform(ws, c, t, net);
      && 1 <= |e.sent| <= 8
      && ((c, t) != (On, All) ==> |e.sent| == 1 && e.status == net(e.sent[0]))
      && forall j :: 0 <= j < |e.sent| ==> AsksFor(ws, e.sent[j], c)
  {
    var e := Perform(ws, c, t, net);
    if (c, t) == (On, All) {
      AllOnOrder(ws, net);
    } else {
      PathForDecodes(Instruction(t, c));
    }
  }

  /**
   * A single outlet target sends one request, for that outlet and that
   * command, and its URL is exactly the one written for them.
   */
  lemma PerformSingleOutlet(ws: WebSwitch, c: Command, n: int, net: Transport)
    ensures var e := Perform(ws, c, Outlet(n), net);
      && |e.sent| == 1
      && Decode(ws, e.sent[0].url) == Some(Instruction(Outlet(n), c))
      && e.sent[0].url == Url(ws, PathFor(Instruction(Outlet(n), c)))
  {
    var e := Perform(ws, c, Outlet(n), net);
    DecodeExact(ws, e.sent[0].url, Instruction(Outlet(n), c));
  }
}
