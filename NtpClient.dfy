/**
 * The `ntpclient` shell command: classifies its arguments into one of five
 * commands, fills the server table the daemon is started with, and maps the NTP
 * client library's answers to the command's exit value. The library (`ntpc_*`)
 * and the clock are not part of this model: their answers are parameters.
 *
 * The daemon-state and link-state enumerations and MAX_NTP_SERVER_NUM are
 * declared in the library's header, which is not part of this model; the values
 * used here are the declaration order 0, 1, ... and a table of five servers.
 */
module NtpClient {
  import opened Wrappers
  import opened CString

  const MAX_NTP_SERVER_NUM: nat := 5
  const NTP_SERVER_PORT: int := 123

  /** The daemon states `ntpc_get_status` reports, in declaration order. */
  const NTP_NOT_RUNNING: int := 0
  const NTP_STARTED: int := 1
  const NTP_RUNNING: int := 2
  const NTP_STOP_REQUESTED: int := 3
  const NTP_STOPPED: int := 4

  /** The link states `ntpc_get_link_status` reports, in declaration order. */
  const NTP_LINK_NOT_SET: int := 0
  const NTP_LINK_UP: int := 1
  const NTP_LINK_DOWN: int := 2

  /** `enum timezone_e` */
  const TIMEZONE_UTC: nat := 0
  const TIMEZONE_KST: nat := 1
  const TIMEZONE_END: nat := 2

  /** The size of the buffer the daemon state's name is printed into, NUL included. */
  const STATUS_STR_LEN: nat := 16

  /** `g_timezone`: each zone's abbreviation and its offset from UTC in hours. */
  datatype TimezoneInfo = TimezoneInfo(name: string, offset: int)

  const TIMEZONES: seq<TimezoneInfo> := [TimezoneInfo("UTC", 0), TimezoneInfo("KST", 9)]

  /**
   * `ntpclient_show_date(timezone)` at UTC time `now`: the local time it prints,
   * or None for the -1 it returns on an index past the table.
   */
  function ShowDate(timezone: nat, now: int): (r: Option<int>)
    ensures r.Some? <==> timezone < TIMEZONE_END
  {
    if timezone >= TIMEZONE_END then None
    else Some(now + TIMEZONES[timezone].offset * 3600)
  }

  /** The exit value of `ntpclient_show_date`. */
  function ShowDateResult(timezone: nat, now: int): (r: int)
    ensures r == 0 || r == -1
  {
    if ShowDate(timezone, now).Some? then 0 else -1
  }

  /** UTC is shown unshifted, KST nine hours ahead; nothing else is accepted. */
  lemma ShowDateOffsets(now: int)
    ensures ShowDate(TIMEZONE_UTC, now) == Some(now)
    ensures ShowDate(TIMEZONE_KST, now) == Some(now + 32400)
    ensures forall tz: nat :: tz >= TIMEZONE_END ==> ShowDate(tz, now) == None && ShowDateResult(tz, now) == -1
  {
  }

  /** The local time always lies a whole number of hours, at most nine, ahead of UTC. */
  lemma ShowDateShift(timezone: nat, now: int)
    requires timezone < TIMEZONE_END
    ensures var t := ShowDate(timezone, now).value;
      now <= t <= now + 9 * 3600 && (t - now) % 3600 == 0
  {
  }

  /** `ntpclient_show_daemon_status`: the name printed for a daemon state, None on the error path. */
  function DaemonStatusName(status: int): (r: Option<string>)
    ensures r.Some? <==> NTP_NOT_RUNNING <= status <= NTP_STOPPED
    ensures r.Some? ==> 0 < |r.value| < STATUS_STR_LEN
  {
    if status == NTP_NOT_RUNNING then Some("NOT_RUNNING")
    else if status == NTP_STARTED then Some("STARTED")
    else if status == NTP_RUNNING then Some("RUNNING")
    else if status == NTP_STOP_REQUESTED then Some("STOP_REQUESTED")
    else if status == NTP_STOPPED then Some("STOPPED")
    else None
  }

  /** The state a printed name stands for: the inverse of DaemonStatusName. */
  function DaemonStatusOfName(name: string): Option<int>
  {
    if name == "NOT_RUNNING" then Some(NTP_NOT_RUNNING)
    else if name == "STARTED" then Some(NTP_STARTED)
    else if name == "RUNNING" then Some(NTP_RUNNING)
    else if name == "STOP_REQUESTED" then Some(NTP_STOP_REQUESTED)
    else if name == "STOPPED" then Some(NTP_STOPPED)
    else None
  }

  /** Each state has its own name, so the printed line identifies the state. */
  lemma DaemonStatusNameRoundTrip(status: int)
    requires DaemonStatusName(status).Some?
    ensures DaemonStatusOfName(DaemonStatusName(status).value) == Some(status)
  {
  }

  lemma DaemonStatusNameOfState(name: string)
    requires DaemonStatusOfName(name).Some?
    ensures DaemonStatusName(DaemonStatusOfName(name).value) == Some(name)
  {
  }

  /** The text the `link` command prints for a link state; None for "Unknown", which fails the command. */
  function LinkStatusText(status: int): (r: Option<string>)
    ensures r.Some? <==> NTP_LINK_NOT_SET <= status <= NTP_LINK_DOWN
  {
    if status == NTP_LINK_NOT_SET then Some("Searching NTP Server")
    else if status == NTP_LINK_UP then Some("Link UP")
    else if status == NTP_LINK_DOWN then Some("Link Down")
    else None
  }

  /** A command the arguments select; Start carries `atoi(argv[2])` and the host names after it. */
  datatype Command =
    | Start(intervalSecs: int, hosts: seq<string>)
    | Stop
    | Status
    | Date
    | Link
  {
    /** `cmdtype` */
    function CmdType(): (n: int)
      ensures 1 <= n <= 5
      ensures Start? <==> n == 1
      ensures Stop? <==> n == 2
      ensures Status? <==> n == 3
      ensures Date? <==> n == 4
      ensures Link? <==> n == 5
    {
      match this
      case Start(_, _) => 1
      case Stop => 2
      case Status => 3
      case Date => 4
      case Link => 5
    }
  }

  /** How `ntpclient_main` reads `argv` (argv[0] being the program name); None for every rejected form. */
  function Classify(argv: seq<string>): (r: Option<Command>)
    ensures r.Some? <==>
      || (4 <= |argv| <= 3 + MAX_NTP_SERVER_NUM && argv[1] == "start")
      || (|argv| == 2 && argv[1] in ["stop", "status", "date", "link"])
    ensures r.Some? && r.value.Start? ==>
      && 4 <= |argv| <= 3 + MAX_NTP_SERVER_NUM
      && 1 <= |r.value.hosts| <= MAX_NTP_SERVER_NUM
      && r.value.hosts == argv[3..]
      && r.value.intervalSecs == Atoi(argv[2])
  {
    if 4 <= |argv| <= 3 + MAX_NTP_SERVER_NUM then
      if argv[1] == "start" then Some(Start(Atoi(argv[2]), argv[3..])) else None
    else if |argv| == 2 then
      if argv[1] == "stop" then Some(Stop)
      else if argv[1] == "status" then Some(Status)
      else if argv[1] == "date" then Some(Date)
      else if argv[1] == "link" then Some(Link)
      else None
    else None
  }

  /** A command line that selects c: the keyword, and for Start the interval in decimal and the hosts. */
  function Render(c: Command, progname: string): (argv: seq<string>)
    requires c.Start? ==> c.intervalSecs >= 0
  {
    match c
    case Start(interval, hosts) => [progname, "start", Utoa(interval)] + hosts
    case Stop => [progname, "stop"]
    case Status => [progname, "status"]
    case Date => [progname, "date"]
    case Link => [progname, "link"]
  }

  /** Every command the table can hold is selected by its own command line. */
  lemma ClassifyRender(c: Command, progname: string)
    requires c.Start? ==> c.intervalSecs >= 0 && 1 <= |c.hosts| <= MAX_NTP_SERVER_NUM
    ensures Classify(Render(c, progname)) == Some(c)
  {
    if c.Start? {
      var argv := Render(c, progname);
      assert argv[3..] == c.hosts;
      assert Utoa(c.intervalSecs) + [] == Utoa(c.intervalSecs);
      AtoiOfUtoa(c.intervalSecs, []);
    }
  }

  /** Conversely, an accepted command line is the rendering of what it selects, up to how the interval is spelled. */
  lemma RenderClassify(argv: seq<string>)
    requires Classify(argv).Some?
    ensures var c := Classify(argv).value;
      if c.Start? then argv[3..] == c.hosts && Atoi(argv[2]) == c.intervalSecs
      else argv == Render(c, argv[0])
  {
  }

  /** `struct ntpc_server_conn_s`: a NULL hostname and port 0 is the zeroed entry. */
  datatype ServerConn = ServerConn(hostname: Option<string>, port: int)

  const ZERO_CONN: ServerConn := ServerConn(None, 0)

  /** The table `ntpclient_main` hands to `ntpc_start` for the given hosts. */
  function ServerTable(hosts: seq<string>): (t: seq<ServerConn>)
    requires |hosts| <= MAX_NTP_SERVER_NUM
    ensures |t| == MAX_NTP_SERVER_NUM
  {
    seq(MAX_NTP_SERVER_NUM, i requires 0 <= i < MAX_NTP_SERVER_NUM =>
      if i < |hosts| then ServerConn(Some(hosts[i]), NTP_SERVER_PORT) else ZERO_CONN)
  }

  /** The first |hosts| entries name the hosts in order, on port 123; the rest are zeroed. */
  lemma ServerTableEntries(hosts: seq<string>, i: nat)
    requires |hosts| <= MAX_NTP_SERVER_NUM && i < MAX_NTP_SERVER_NUM
    ensures i < |hosts| ==> ServerTable(hosts)[i].hostname == Some(hosts[i]) && ServerTable(hosts)[i].port == 123
    ensures i >= |hosts| ==> ServerTable(hosts)[i] == ZERO_CONN
  {
  }

  /** The hosts can be read back from the table: its named entries, in order. */
  function TableHosts(t: seq<ServerConn>): seq<string>
  {
    if t == [] || t[0].hostname.None? then [] else [t[0].hostname.value] + TableHosts(t[1..])
  }

  lemma {:induction false} TableHostsOfServerTable(hosts: seq<string>)
    requires |hosts| <= MAX_NTP_SERVER_NUM
    ensures TableHosts(ServerTable(hosts)) == hosts
  {
    TableHostsFrom(hosts, 0);
    assert ServerTable(hosts)[0..] == ServerTable(hosts);
    assert hosts[0..] == hosts;
  }

  lemma {:induction false} TableHostsFrom(hosts: seq<string>, k: nat)
    requires |hosts| <= MAX_NTP_SERVER_NUM && k <= |hosts|
    ensures TableHosts(ServerTable(hosts)[k..]) == hosts[k..]
    decreases |hosts| - k
  {
    var t := ServerTable(hosts)[k..];
    if k == |hosts| {
      if k < MAX_NTP_SERVER_NUM {
        assert t[0] == ZERO_CONN;
      }
    } else {
      assert t[0] == ServerConn(Some(hosts[k]), NTP_SERVER_PORT);
      assert t[1..] == ServerTable(hosts)[k + 1..];
      TableHostsFrom(hosts, k + 1);
      assert hosts[k..] == [hosts[k]] + hosts[k + 1..];
    }
  }

  /** What the NTP client library answers, one value per call the command can make. */
  datatype Backend = Backend(startRet: int, stopRet: int, statusRet: int, linkRet: int, now: int)

  /** The one library call a command makes, with the arguments it passes. */
  datatype Call =
    | CallStart(servers: seq<ServerConn>, numOfServers: int, intervalSecs: int)
    | CallStop
    | CallGetStatus
    | CallShowDate(timezone: nat)
    | CallGetLinkStatus

  /** Whether a command's library answer counts as success. */
  predicate Accepted(c: Command, b: Backend)
  {
    match c
    case Start(_, _) => b.startRet >= 0
    case Stop => b.stopRet >= 0
    case Status => DaemonStatusName(b.statusRet).Some?
    case Date => true
    case Link => LinkStatusText(b.linkRet).Some?
  }

  /** `ntpclient_main`'s exit value: 0 exactly when the arguments are accepted and so is the library's answer. */
  function ExitValue(argv: seq<string>, b: Backend): (r: int)
    ensures r == 0 || r == -1
  {
    if Classify(argv).Some? && Accepted(Classify(argv).value, b) then 0 else -1
  }

  /** The exit value in the terms of each command: start and stop need a non-negative return, status and link a known state, date always succeeds. */
  lemma ExitValueCases(argv: seq<string>, b: Backend)
    ensures Classify(argv).None? ==> ExitValue(argv, b) == -1
    ensures Classify(argv) == Some(Stop) ==> (ExitValue(argv, b) == 0 <==> b.stopRet >= 0)
    ensures Classify(argv).Some? && Classify(argv).value.Start? ==> (ExitValue(argv, b) == 0 <==> b.startRet >= 0)
    ensures Classify(argv) == Some(Status) ==> (ExitValue(argv, b) == 0 <==> 0 <= b.statusRet <= 4)
    ensures Classify(argv) == Some(Link) ==> (ExitValue(argv, b) == 0 <==> 0 <= b.linkRet <= 2)
    ensures Classify(argv) == Some(Date) ==> ExitValue(argv, b) == 0
  {
  }

  /** The program's global state: the server table `g_server_conn`. */
  class NtpClientApp {
    const serverConn: array<ServerConn>

    ghost predicate Valid()
      reads this
    {
      serverConn.Length == MAX_NTP_SERVER_NUM
    }

    constructor ()
      ensures Valid() && fresh(serverConn)
      ensures forall i :: 0 <= i < serverConn.Length ==> serverConn[i] == ZERO_CONN
    {
      serverConn := new ServerConn[MAX_NTP_SERVER_NUM](_ => ZERO_CONN);
    }

    /** `memset(&g_server_conn, 0, ...)` followed by the loop that names one host per entry. */
    method FillServerTable(hosts: seq<string>)
      requires Valid() && |hosts| <= MAX_NTP_SERVER_NUM
      modifies serverConn
      ensures serverConn[..] == ServerTable(hosts)
    {
      for i := 0 to serverConn.Length
        invariant forall j :: 0 <= j < i ==> serverConn[j] == ZERO_CONN
      {
        serverConn[i] := ZERO_CONN;
      }
      for i := 0 to |hosts|
        invariant forall j :: 0 <= j < i ==> serverConn[j] == ServerConn(Some(hosts[j]), NTP_SERVER_PORT)
        invariant forall j :: i <= j < serverConn.Length ==> serverConn[j] == ZERO_CONN
      {
        serverConn[i] := ServerConn(Some(hosts[i]), NTP_SERVER_PORT);
      }
      assert forall j :: 0 <= j < MAX_NTP_SERVER_NUM ==> serverConn[..][j] == ServerTable(hosts)[j];
    }

    /**
     * `ntpclient_main(argc, argv)`: classify, make the one library call the command
     * needs (none for rejected arguments), and map its answer to the exit value.
     */
    method Run(argv: seq<string>, b: Backend) returns (result: int, call: Option<Call>)
      requires Valid()
      modifies serverConn
      ensures result == ExitValue(argv, b)
      ensures Classify(argv).None? <==> call.None?
      ensures Classify(argv).Some? ==> call.value == CallFor(Classify(argv).value)
      ensures if Classify(argv).Some? && Classify(argv).value.Start? then serverConn[..] == ServerTable(Classify(argv).value.hosts)
              else serverConn[..] == old(serverConn[..])
    {
      result := -1;
      call := None;
      var cmd := Classify(argv);
      if cmd.None? {
        return;
      }
      match cmd.value {
        case Start(interval, hosts) =>
          FillServerTable(hosts);
          call := Some(CallStart(serverConn[..], |argv| - 3, interval));
          if b.startRet < 0 {
            return;
          }
        case Stop =>
          call := Some(CallStop);
          if b.stopRet < 0 {
            return;
          }
        case Status =>
          call := Some(CallGetStatus);
          var name := DaemonStatusName(b.statusRet);
          if name.None? {
            return;
          }
        case Date =>
          call := Some(CallShowDate(TIMEZONE_KST));
          var shown := ShowDate(TIMEZONE_KST, b.now);
        case Link =>
          call := Some(CallGetLinkStatus);
          var text := LinkStatusText(b.linkRet);
          if text.None? {
            return;
          }
      }
      result := 0;
    }
  }

  /** The library call each command makes: `ntpc_start` with the filled table, its host count and the interval. */
  function CallFor(c: Command): (r: Call)
    requires c.Start? ==> |c.hosts| <= MAX_NTP_SERVER_NUM
  {
    match c
    case Start(interval, hosts) => CallStart(ServerTable(hosts), |hosts|, interval)
    case Stop => CallStop
    case Status => CallGetStatus
    case Date => CallShowDate(TIMEZONE_KST)
    case Link => CallGetLinkStatus
  }
}
