/**
 * The client side of an 8-outlet Web Power Switch: the connection settings,
 * the request each outlet operation sends, and the all-on loop.
 *
 * The HTTP transport is an oracle: for each request it either delivers it or
 * reports a transport error. An operation's observable effect is the list of
 * requests it sent, in order, together with how it ended.
 */
module PowerSwitch {
  import opened Wrappers
  import Decimal

  const OutletFirst := 1
  const OutletLast := 8

  /** Connection settings: host, HTTP port and the basic-auth credential pair. */
  datatype WebSwitch = WebSwitch(address: string, port: int, username: string, password: string)

  /** An HTTP request as it leaves the client: method (verb), URL, and the basic-auth pair attached to it. */
  datatype Request = Request(verb: string, url: string, username: string, password: string)

  /** What the transport reports for one request; the response itself is never looked at. */
  datatype Status = Delivered | Failed(err: string)

  type Transport = Request -> Status

  /** The requests an operation sent, in order, and the error it returned, if any. */
  datatype Exchange = Exchange(sent: seq<Request>, status: Status)

  /** What a device path asks for: an outlet (or all of them) and the switch action. */
  datatype Target = All | Outlet(num: int)
  datatype Command = On | Off | Cycle
  datatype Instruction = Instruction(target: Target, command: Command)

  // ---------------------------------------------------------------------
  // Requests
  // ---------------------------------------------------------------------

  /** The `http://{address}:{port}/` prefix of every URL of this switch. */
  function Origin(ws: WebSwitch): string {
    "http://" + ws.address + ":" + Decimal.Format(ws.port) + "/"
  }

  /** The URL of a device path on this switch: its path, read back, is exactly that path. */
  function Url(ws: WebSwitch, path: string): (u: string)
    ensures UrlPath(ws, u) == Some(path)
  {
    var u := Origin(ws) + path;
    assert u[..|Origin(ws)|] == Origin(ws) && u[|Origin(ws)|..] == path;
    u
  }

  /** The request built for a device path: the given method, the switch's credentials, and a URL for exactly that path. */
  function NewRequest(ws: WebSwitch, verb: string, path: string): (r: Request)
    ensures r.verb == verb && r.username == ws.username && r.password == ws.password
    ensures UrlPath(ws, r.url) == Some(path)
  {
    Request(verb, Url(ws, path), ws.username, ws.password)
  }

  /** Sends one request and returns the transport's verdict on it. */
  function Do(ws: WebSwitch, verb: string, path: string, net: Transport): (e: Exchange)
    ensures |e.sent| == 1 && e.sent[0] == NewRequest(ws, verb, path)
    ensures e.status == net(e.sent[0])
  {
    var r := NewRequest(ws, verb, path);
    Exchange([r], net(r))
  }

  // ---------------------------------------------------------------------
  // Decoding a URL back into what it asks the device to do
  // ---------------------------------------------------------------------

  /** The device path of a URL addressed to this switch. */
  function UrlPath(ws: WebSwitch, url: string): (p: Option<string>)
    ensures p.Some? ==> url == Origin(ws) + p.value
  {
    var prefix := Origin(ws);
    if |prefix| <= |url| && url[..|prefix|] == prefix then
      assert url == prefix + url[|prefix|..];
      Some(url[|prefix|..])
    else
      None
  }

  /** Position of the first c in s, or |s| when there is none. */
  function IndexOf(s: string, c: char): (k: nat)
    ensures k <= |s|
    ensures forall j :: 0 <= j < k ==> s[j] != c
    ensures k < |s| ==> s[k] == c
  {
    if s == [] then 0 else if s[0] == c then 0 else 1 + IndexOf(s[1..], c)
  }

  function DecodeTarget(s: string): Option<Target> {
    if s == "a" then Some(All)
    else match Decimal.Parse(s)
      case Some(n) => Some(Outlet(n))
      case None => None
  }

  function DecodeCommand(s: string): Option<Command> {
    if s == "ON" then Some(On)
    else if s == "OFF" then Some(Off)
    else if s == "CCL" then Some(Cycle)
    else None
  }

  /** The device's endpoint grammar: `outlet?` TARGET `=` ACTION. */
  function DecodePath(p: string): Option<Instruction> {
    if |p| < 7 || p[..7] != "outlet?" then None
    else
      var q := p[7..];
      var k := IndexOf(q, '=');
      if k == |q| then None
      else match (DecodeTarget(q[..k]), DecodeCommand(q[k + 1..]))
        case (Some(t), Some(c)) => Some(Instruction(t, c))
        case _ => None
  }

  /** What a URL asks this switch to do, if it is a well-formed outlet URL of this switch. */
  function Decode(ws: WebSwitch, url: string): Option<Instruction> {
    match UrlPath(ws, url)
    case Some(p) => DecodePath(p)
    case None => None
  }

  /** The words the client writes for a target and an action. */
  function TargetWord(t: Target): string {
    match t
    case All => "a"
    case Outlet(n) => Decimal.Format(n)
  }

  function CommandWord(c: Command): string {
    match c
    case On => "ON"
    case Off => "OFF"
    case Cycle => "CCL"
  }

  /** The path the client writes for an instruction. */
  function PathFor(ins: Instruction): string {
    "outlet?" + TargetWord(ins.target) + "=" + CommandWord(ins.command)
  }

  lemma {:induction false} IndexOfAfter(a: string, c: char, b: string)
    requires forall j :: 0 <= j < |a| ==> a[j] != c
    ensures IndexOf(a + [c] + b, c) == |a|
  {
    if a != [] {
      assert (a + [c] + b)[1..] == a[1..] + [c] + b;
      IndexOfAfter(a[1..], c, b);
    }
  }

  /** `outlet?` TARGET `=` ACTION decodes back to its parts. */
  lemma PathRoundTrip(target: string, t: Target, action: string, c: Command)
    requires DecodeTarget(target) == Some(t) && DecodeCommand(action) == Some(c)
    requires forall j :: 0 <= j < |target| ==> target[j] != '='
    ensures DecodePath("outlet?" + target + "=" + action) == Some(Instruction(t, c))
  {
    var p := "outlet?" + target + "=" + action;
    var q := target + "=" + action;
    assert p == "outlet?" + q;
    assert p[..7] == "outlet?" && p[7..] == q;
    IndexOfAfter(target, '=', action);
    assert IndexOf(q, '=') == |target|;
    assert q[..|target|] == target;
    assert q[|target| + 1..] == action;
  }

  /** The path written for an instruction decodes back to that instruction. */
  lemma PathForDecodes(ins: Instruction)
    ensures DecodePath(PathFor(ins)) == Some(ins)
  {
    var t, c := ins.target, ins.command;
    if t.Outlet? {
      Decimal.FormatRoundTrip(t.num);
    }
    assert DecodeCommand(CommandWord(c)) == Some(c);
    PathRoundTrip(TargetWord(t), t, CommandWord(c), c);
  }

  /** A path that decodes to an instruction is the path written for it, character for character. */
  lemma DecodedPathIsPathFor(p: string, ins: Instruction)
    requires DecodePath(p) == Some(ins)
    ensures p == PathFor(ins)
  {
    var q := p[7..];
    var k := IndexOf(q, '=');
    var target, action := q[..k], q[k + 1..];
    assert DecodeTarget(target) == Some(ins.target);
    assert DecodeCommand(action) == Some(ins.command);
    if ins.target.Outlet? {
      Decimal.ParseCanonical(target, ins.target.num);
    }
    assert target == TargetWord(ins.target);
    assert action == CommandWord(ins.command);
    assert p == p[..7] + target + "=" + action;
  }

  /**
   * The decoder accepts exactly the paths the client writes: a path decodes to
   * an instruction if and only if it is the path written for that instruction.
   */
  lemma DecodePathExact(p: string, ins: Instruction)
    ensures DecodePath(p) == Some(ins) <==> p == PathFor(ins)
  {
    PathForDecodes(ins);
    if DecodePath(p) == Some(ins) {
      DecodedPathIsPathFor(p, ins);
    }
  }

  /** A URL asks this switch for an instruction if and only if it is this switch's URL of that instruction's path. */
  lemma DecodeExact(ws: WebSwitch, url: string, ins: Instruction)
    ensures Decode(ws, url) == Some(ins) <==> url == Url(ws, PathFor(ins))
  {
    DecodePathExact(PathFor(ins), ins);
    if Decode(ws, url) == Some(ins) {
      DecodePathExact(UrlPath(ws, url).value, ins);
    }
  }

  /** `outlet?{num}=ON`: the path written for switching outlet num on. */
  function OnPath(num: int): (p: string)
    ensures p == PathFor(Instruction(Outlet(num), On))
  {
    "outlet?" + Decimal.Format(num) + "=ON"
  }

  /** `outlet?{num}=OFF`: the path written for switching outlet num off. */
  function OffPath(num: int): (p: string)
    ensures p == PathFor(Instruction(Outlet(num), Off))
  {
    "outlet?" + Decimal.Format(num) + "=OFF"
  }

  /** `outlet?{num}=CCL`: the path written for power-cycling outlet num. */
  function CyclePath(num: int): (p: string)
    ensures p == PathFor(Instruction(Outlet(num), Cycle))
  {
    "outlet?" + Decimal.Format(num) + "=CCL"
  }

  /** `outlet?a=OFF`: the device's own all-off path. */
  function AllOffPath(): (p: string)
    ensures p == PathFor(Instruction(All, Off))
  {
    "outlet?a=OFF"
  }

  /** `outlet?a=CCL`: the device's own cycle-all path. */
  function AllCyclePath(): (p: string)
    ensures p == PathFor(Instruction(All, Cycle))
  {
    "outlet?a=CCL"
  }

  // ---------------------------------------------------------------------
  // Outlet operations
  // ---------------------------------------------------------------------

  /** The single request that switches outlet num on. */
  function OnRequest(ws: WebSwitch, num: int): Request {
    NewRequest(ws, "GET", OnPath(num))
  }

  /** The on-request of an outlet is an authenticated GET that asks this switch to turn exactly that outlet on. */
  lemma OnRequestDecodes(ws: WebSwitch, num: int)
    ensures var r := OnRequest(ws, num);
      && r.verb == "GET" && r.username == ws.username && r.password == ws.password
      && Decode(ws, r.url) == Some(Instruction(Outlet(num), On))
  {
    DecodePathExact(OnPath(num), Instruction(Outlet(num), On));
  }

  function OutletOn(ws: WebSwitch, num: int, net: Transport): (e: Exchange)
    ensures e.sent == [OnRequest(ws, num)] && e.status == net(OnRequest(ws, num))
  {
    Do(ws, "GET", OnPath(num), net)
  }

  function OutletOff(ws: WebSwitch, num: int, net: Transport): (e: Exchange)
    ensures e.sent == [NewRequest(ws, "GET", OffPath(num))] && e.status == net(e.sent[0])
    ensures e.sent[0].verb == "GET" && e.sent[0].username == ws.username && e.sent[0].password == ws.password
    ensures Decode(ws, e.sent[0].url) == Some(Instruction(Outlet(num), Off))
  {
    DecodePathExact(OffPath(num), Instruction(Outlet(num), Off));
    Do(ws, "GET", OffPath(num), net)
  }

  function OutletCycle(ws: WebSwitch, num: int, net: Transport): (e: Exchange)
    ensures e.sent == [NewRequest(ws, "GET", CyclePath(num))] && e.status == net(e.sent[0])
    ensures e.sent[0].verb == "GET" && e.sent[0].username == ws.username && e.sent[0].password == ws.password
    ensures Decode(ws, e.sent[0].url) == Some(Instruction(Outlet(num), Cycle))
  {
    DecodePathExact(CyclePath(num), Instruction(Outlet(num), Cycle));
    Do(ws, "GET", CyclePath(num), net)
  }

  function OutletAllOff(ws: WebSwitch, net: Transport): (e: Exchange)
    ensures e.sent == [NewRequest(ws, "GET", AllOffPath())] && e.status == net(e.sent[0])
    ensures e.sent[0].verb == "GET" && e.sent[0].username == ws.username && e.sent[0].password == ws.password
    ensures Decode(ws, e.sent[0].url) == Some(Instruction(All, Off))
  {
    DecodePathExact(AllOffPath(), Instruction(All, Off));
    Do(ws, "GET", AllOffPath(), net)
  }

  function OutletCycleAll(ws: WebSwitch, net: Transport): (e: Exchange)
    ensures e.sent == [NewRequest(ws, "GET", AllCyclePath())] && e.status == net(e.sent[0])
    ensures e.sent[0].verb == "GET" && e.sent[0].username == ws.username && e.sent[0].password == ws.password
    ensures Decode(ws, e.sent[0].url) == Some(Instruction(All, Cycle))
  {
    DecodePathExact(AllCyclePath(), Instruction(All, Cycle));
    Do(ws, "GET", AllCyclePath(), net)
  }

  /** For the outlets the switch has, each path names the outlet by its one digit. */
  lemma SingleOutletPaths(num: int)
    requires OutletFirst <= num <= OutletLast
    ensures OnPath(num) == "outlet?" + [Decimal.DigitChar(num)] + "=ON"
    ensures OffPath(num) == "outlet?" + [Decimal.DigitChar(num)] + "=OFF"
    ensures CyclePath(num) == "outlet?" + [Decimal.DigitChar(num)] + "=CCL"
  {
  }

  /** The on-requests of different outlets are different requests. */
  lemma OnRequestsDistinct(ws: WebSwitch, m: int, n: int)
    ensures OnRequest(ws, m) == OnRequest(ws, n) <==> m == n
  {
    OnRequestDecodes(ws, m);
    OnRequestDecodes(ws, n);
  }

  // ---------------------------------------------------------------------
  // All on: outlets one by one, stopping at the first transport error
  // ---------------------------------------------------------------------

  /** The on-requests of outlets 1..8, in the order the all-on loop sends them. */
  function OnRequests(ws: WebSwitch): (rs: seq<Request>)
    ensures |rs| == OutletLast
    ensures forall j :: 0 <= j < |rs| ==> rs[j] == OnRequest(ws, j + 1)
  {
    seq(OutletLast, j => OnRequest(ws, j + 1))
  }

  /**
   * Sends the requests in order, stopping after the first one the transport
   * fails: what is sent is a prefix of the requests, non-empty when there are
   * any, and the whole list on success.
   */
  function SendUntilError(reqs: seq<Request>, net: Transport): (e: Exchange)
    ensures |e.sent| <= |reqs| && e.sent == reqs[..|e.sent|]
    ensures reqs != [] ==> |e.sent| >= 1
    ensures e.status == Delivered ==> e.sent == reqs
  {
    if reqs == [] then Exchange([], Delivered)
    else if net(reqs[0]).Failed? then Exchange([reqs[0]], net(reqs[0]))
    else
      var rest := SendUntilError(reqs[1..], net);
      assert [reqs[0]] + reqs[1..][..|rest.sent|] == reqs[..|rest.sent| + 1];
      assert rest.status == Delivered ==> [reqs[0]] + reqs[1..] == reqs;
      Exchange([reqs[0]] + rest.sent, rest.status)
  }

  /** All on is the eight on-requests sent in order until the first error: between one and eight of them, and all eight on success. */
  function AllOn(ws: WebSwitch, net: Transport): (e: Exchange)
    ensures 1 <= |e.sent| <= OutletLast && e.sent == OnRequests(ws)[..|e.sent|]
    ensures e.status == Delivered ==> e.sent == OnRequests(ws)
  {
    SendUntilError(OnRequests(ws), net)
  }

  /** When request k is the first to fail, exactly requests 0..k are sent and k's error is the result. */
  lemma {:induction false} SendUntilFirstFailure(reqs: seq<Request>, net: Transport, k: nat)
    requires k < |reqs| && net(reqs[k]).Failed?
    requires forall j :: 0 <= j < k ==> net(reqs[j]) == Delivered
    ensures SendUntilError(reqs, net) == Exchange(reqs[..k + 1], net(reqs[k]))
  {
    if k > 0 {
      assert net(reqs[0]) == Delivered;
      SendUntilFirstFailure(reqs[1..], net, k - 1);
      assert [reqs[0]] + reqs[1..][..k] == reqs[..k + 1];
    }
  }

  /** When every request is delivered, all of them are sent and the result is success. */
  lemma {:induction false} SendAllDelivered(reqs: seq<Request>, net: Transport)
    requires forall j :: 0 <= j < |reqs| ==> net(reqs[j]) == Delivered
    ensures SendUntilError(reqs, net) == Exchange(reqs, Delivered)
  {
    if reqs != [] {
      assert net(reqs[0]) == Delivered;
      SendAllDelivered(reqs[1..], net);
      assert [reqs[0]] + reqs[1..] == reqs;
    }
  }

  /**
   * Whatever the transport does, every request sent but the last was
   * delivered, and the result is the verdict on the last one sent.
   */
  lemma {:induction false} SendUntilErrorShape(reqs: seq<Request>, net: Transport)
    requires |reqs| >= 1
    ensures var e := SendUntilError(reqs, net);
      && 1 <= |e.sent| <= |reqs| && e.sent == reqs[..|e.sent|]
      && (forall j :: 0 <= j < |e.sent| - 1 ==> net(e.sent[j]) == Delivered)
      && e.status == net(e.sent[|e.sent| - 1])
      && (e.status == Delivered ==> e.sent == reqs)
  {
    var e := SendUntilError(reqs, net);
    if net(reqs[0]) == Delivered {
      var rest := SendUntilError(reqs[1..], net);
      if |reqs| == 1 {
        assert rest == Exchange([], Delivered);
      } else {
        SendUntilErrorShape(reqs[1..], net);
        forall j | 0 < j < |e.sent| - 1
          ensures net(e.sent[j]) == Delivered
        {
          assert e.sent[j] == rest.sent[j - 1];
        }
        assert e.sent[|e.sent| - 1] == rest.sent[|rest.sent| - 1];
      }
    }
  }

  /** A prefix one longer is the shorter prefix and the next element. */
  lemma PrefixStep<T>(s: seq<T>, i: nat)
    requires 0 < i <= |s|
    ensures s[..i] == s[..i - 1] + [s[i - 1]]
  {
  }

  method OutletAllOn(ws: WebSwitch, net: Transport) returns (e: Exchange)
    ensures e == AllOn(ws, net)
  {
    ghost var reqs := OnRequests(ws);
    var sent: seq<Request> := [];
    var i := OutletFirst;
    while i <= OutletLast
      invariant OutletFirst <= i <= OutletLast + 1
      invariant sent == reqs[..i - 1]
      invariant forall j :: 0 <= j < i - 1 ==> net(reqs[j]) == Delivered
    {
      var r := OutletOn(ws, i, net);
      assert r.sent == [reqs[i - 1]] && r.status == net(reqs[i - 1]);
      if r.status.Failed? {
        SendUntilFirstFailure(reqs, net, i - 1);
        PrefixStep(reqs, i);
        return Exchange(sent + r.sent, r.status);
      }
      PrefixStep(reqs, i);
      sent := sent + r.sent;
      i := i + 1;
    }
    SendAllDelivered(reqs, net);
    assert sent == reqs;
    return Exchange(sent, Delivered);
  }

  /**
   * All on sends requests only to outlets 1..8, in ascending order, every one
   * but the last delivered, and returns the verdict on the last one it sent.
   */
  lemma AllOnOrder(ws: WebSwitch, net: Transport)
    ensures var e := AllOn(ws, net);
      && 1 <= |e.sent| <= 8
      && (forall j :: 0 <= j < |e.sent| ==> e.sent[j] == OnRequest(ws, j + 1))
      && (forall j :: 0 <= j < |e.sent| ==> Decode(ws, e.sent[j].url) == Some(Instruction(Outlet(j + 1), On)))
      && (forall j :: 0 <= j < |e.sent| - 1 ==> net(e.sent[j]) == Delivered)
      && e.status == net(e.sent[|e.sent| - 1])
  {
    var e := AllOn(ws, net);
    var reqs := OnRequests(ws);
    SendUntilErrorShape(reqs, net);
    forall j | 0 <= j < |e.sent|
      ensures e.sent[j] == OnRequest(ws, j + 1)
      ensures Decode(ws, e.sent[j].url) == Some(Instruction(Outlet(j + 1), On))
    {
      assert e.sent[j] == reqs[j];
      OnRequestDecodes(ws, j + 1);
    }
  }

  /** When outlet k is the first whose request fails, exactly outlets 1..k are sent and k's error is returned. */
  lemma AllOnStopsAtFirstFailure(ws: WebSwitch, net: Transport, k: int)
    requires OutletFirst <= k <= OutletLast
    requires net(OnRequest(ws, k)).Failed?
    requires forall n :: OutletFirst <= n < k ==> net(OnRequest(ws, n)) == Delivered
    ensures var e := AllOn(ws, net);
      && |e.sent| == k
      && (forall j :: 0 <= j < k ==> e.sent[j] == OnRequest(ws, j + 1))
      && e.status == net(OnRequest(ws, k))
  {
    var reqs := OnRequests(ws);
    forall j | 0 <= j < k - 1
      ensures net(reqs[j]) == Delivered
    {
      assert reqs[j] == OnRequest(ws, j + 1);
    }
    SendUntilFirstFailure(reqs, net, k - 1);
  }

  /** All on succeeds when all eight on-requests are delivered, and then it sent all eight in order. */
  lemma AllOnSucceedsWhenAllDelivered(ws: WebSwitch, net: Transport)
    requires forall n :: OutletFirst <= n <= OutletLast ==> net(OnRequest(ws, n)) == Delivered
    ensures AllOn(ws, net) == Exchange(OnRequests(ws), Delivered)
  {
    var reqs := OnRequests(ws);
    forall j | 0 <= j < |reqs|
      ensures net(reqs[j]) == Delivered
    {
      assert reqs[j] == OnRequest(ws, j + 1);
    }
    SendAllDelivered(reqs, net);
  }

  /** All on succeeds only when every one of the eight on-requests was delivered. */
  lemma AllOnSuccessMeansAllDelivered(ws: WebSwitch, net: Transport, n: int)
    requires AllOn(ws, net).status == Delivered
    requires OutletFirst <= n <= OutletLast
    ensures net(OnRequest(ws, n)) == Delivered
  {
    var reqs := OnRequests(ws);
    SendUntilErrorShape(reqs, net);
    var e := AllOn(ws, net);
    assert e.sent == reqs;
    assert reqs[n - 1] == OnRequest(ws, n);
    if n < OutletLast {
      assert net(e.sent[n - 1]) == Delivered;
    } else {
      assert e.status == net(e.sent[n - 1]);
    }
  }

  /** All on succeeds exactly when all eight requests are delivered, and then it sent all eight in order. */
  lemma AllOnSucceedsIff(ws: WebSwitch, net: Transport)
    ensures var e := AllOn(ws, net);
      && (e.status == Delivered <==> forall n :: OutletFirst <= n <= OutletLast ==> net(OnRequest(ws, n)) == Delivered)
      && (e.status == Delivered ==> e.sent == OnRequests(ws))
  {
    if AllOn(ws, net).status == Delivered {
      forall n | OutletFirst <= n <= OutletLast
        ensures net(OnRequest(ws, n)) == Delivered
      {
        AllOnSuccessMeansAllDelivered(ws, net, n);
      }
    }
    if forall n :: OutletFirst <= n <= OutletLast ==> net(OnRequest(ws, n)) == Delivered {
      AllOnSucceedsWhenAllDelivered(ws, net);
    }
  }
}
