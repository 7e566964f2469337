/** The headless display session manager (`src/rdp_session.rs`): a
    credentials slot and a session slot, starting a loopback remote desktop
    client when no session is running. Processes, the credential store,
    the file system and the display enumeration are oracles: the model
    takes their outcomes as inputs and reports the commands issued. */
module Rdp {
  import opened Wrappers
  import opened Bytes
  import opened Text
  import Utf8

  datatype Credentials = Credentials(username: string, password: string)

  /** The client process held by a running session, named by the identity
      the spawn gave it. */
  datatype Session = Session(child: nat)

  /** `RDP_CREDENTIALS` and `RDP_SESSION`. */
  datatype Manager = Manager(credentials: Option<Credentials>, session: Option<Session>)

  /** Both slots start empty. */
  const EMPTY: Manager := Manager(None, None)

  /** What `Child::try_wait` reported. */
  datatype PollResult = Exited | StillRunning | PollFailed

  /** `RdpSession::is_running`: only a child that has not exited, asked
      without error, counts as running. */
  function IsRunning(poll: PollResult): (r: bool)
    ensures r <==> poll == StillRunning
  {
    match poll
    case Exited => false
    case StillRunning => true
    case PollFailed => false
  }

  /** The external commands the manager issues, in order. */
  datatype Command =
    | Logoff(sessionId: int)
    | StoreCredentials(target: string, user: string, pass: string)
    | WriteRdpFile(content: string)
    | SpawnClient
    | KillClient(child: nat)
    | DeleteCredentials(target: string)
    | LogoffCurrent

  /** The outcomes of the shell-outs of `RdpSession::start`: the session
      listing (`None`: the listing command did not run), whether storing the
      credentials and writing the file worked, and the spawned child
      (`None`: spawning the client failed). */
  datatype StartEnv = StartEnv(listing: Option<seq<byte>>, storeOk: bool, writeOk: bool, spawned: Option<nat>)

  /** The I/O error of a failed spawn, propagated to the caller. */
  datatype SpawnError = SpawnError

  // ---------------------------------------------------------------------
  // Credentials slot

  /** `set_rdp_credentials`: replaces whatever was stored. */
  function SetCredentials(m: Manager, username: string, password: string): (r: Manager)
    ensures r.credentials == Some(Credentials(username, password))
    ensures r.session == m.session
  {
    m.(credentials := Some(Credentials(username, password)))
  }

  /** `is_rdp_mode_enabled`. */
  predicate ModeEnabled(m: Manager)
  {
    m.credentials.Some?
  }

  /** Headless mode is on exactly once credentials were set, and the latest
      setting wins. */
  lemma SetCredentialsLatestWins(m: Manager, u1: string, p1: string, u2: string, p2: string)
    ensures ModeEnabled(SetCredentials(m, u1, p1))
    ensures SetCredentials(SetCredentials(m, u1, p1), u2, p2) == SetCredentials(m, u2, p2)
    ensures !ModeEnabled(EMPTY)
  {
  }

  // ---------------------------------------------------------------------
  // The .rdp file

  /** Number of fixed settings in the generated `.rdp` file. */
  const SETTING_COUNT: nat := 46

  /** The fixed settings of the generated `.rdp` file, line by line. */
  function Setting(i: nat): string
    requires i < SETTING_COUNT
  {
    if i == 0 then "screen mode id:i:2"
    else if i == 1 then "use multimon:i:0"
    else if i == 2 then "desktopwidth:i:1920"
    else if i == 3 then "desktopheight:i:1080"
    else if i == 4 then "session bpp:i:32"
    else if i == 5 then "winposstr:s:0,1,0,0,1920,1080"
    else if i == 6 then "compression:i:1"
    else if i == 7 then "keyboardhook:i:2"
    else if i == 8 then "audiocapturemode:i:0"
    else if i == 9 then "videoplaybackmode:i:1"
    else if i == 10 then "connection type:i:7"
    else if i == 11 then "networkautodetect:i:1"
    else if i == 12 then "bandwidthautodetect:i:1"
    else if i == 13 then "displayconnectionbar:i:1"
    else if i == 14 then "enableworkspacereconnect:i:0"
    else if i == 15 then "disable wallpaper:i:0"
    else if i == 16 then "allow font smoothing:i:1"
    else if i == 17 then "allow desktop composition:i:1"
    else if i == 18 then "disable full window drag:i:0"
    else if i == 19 then "disable menu anims:i:0"
    else if i == 20 then "disable themes:i:0"
    else if i == 21 then "disable cursor setting:i:0"
    else if i == 22 then "bitmapcachepersistenable:i:1"
    else if i == 23 then "full address:s:127.0.0.1"
    else if i == 24 then "audiomode:i:0"
    else if i == 25 then "redirectprinters:i:0"
    else if i == 26 then "redirectcomports:i:0"
    else if i == 27 then "redirectsmartcards:i:0"
    else if i == 28 then "redirectclipboard:i:1"
    else if i == 29 then "redirectposdevices:i:0"
    else if i == 30 then "autoreconnection enabled:i:1"
    else if i == 31 then "authentication level:i:2"
    else if i == 32 then "prompt for credentials:i:0"
    else if i == 33 then "negotiate security layer:i:1"
    else if i == 34 then "remoteapplicationmode:i:0"
    else if i == 35 then "alternate shell:s:"
    else if i == 36 then "shell working directory:s:"
    else if i == 37 then "gatewayhostname:s:"
    else if i == 38 then "gatewayusagemethod:i:4"
    else if i == 39 then "gatewaycredentialssource:i:4"
    else if i == 40 then "gatewayprofileusagemethod:i:0"
    else if i == 41 then "promptcredentialonce:i:0"
    else if i == 42 then "gatewaybrokeringtype:i:0"
    else if i == 43 then "use redirection server name:i:0"
    else if i == 44 then "rdgiskdcproxy:i:0"
    else "kdcproxyname:s:"
  }

  /** The fixed settings, in file order. */
  function RdpSettings(): (r: seq<string>)
    ensures |r| == SETTING_COUNT
    ensures forall i :: 0 <= i < SETTING_COUNT ==> r[i] == Setting(i)
  {
    seq(SETTING_COUNT, i requires 0 <= i < SETTING_COUNT => Setting(i))
  }

  /** The lines of the `.rdp` file for a user: the fixed settings, then
      the user name. */
  function RdpLines(username: string): (r: seq<string>)
    ensures |r| == SETTING_COUNT + 1
    ensures forall i :: 0 <= i < SETTING_COUNT ==> r[i] == Setting(i)
    ensures r[SETTING_COUNT] == "username:s:" + username
  {
    RdpSettings() + ["username:s:" + username]
  }

  /** The text written to `sdfdesk_rdp.rdp`: every line ends with "\n". */
  function RdpContent(username: string): string
  {
    Unlines(RdpLines(username))
  }

  /** The file is the same fixed text for everybody followed by the user
      name and a newline: nothing but the user name varies, and the
      password never appears. */
  lemma RdpContentShape(username: string)
    ensures RdpContent(username) == Unlines(RdpSettings()) + ("username:s:" + username) + "\n"
  {
    var last := "username:s:" + username;
    assert RdpContent(username) == Unlines(RdpSettings() + [last]);
    UnlinesSnoc(RdpSettings(), last);
  }

  /** The user name sits on a line of its own, `username:s:<name>`. */
  lemma RdpUserLine(username: string)
    ensures Contains(RdpContent(username), "\n" + ("username:s:" + username) + "\n")
  {
    UnlinesHasLine(RdpLines(username), SETTING_COUNT);
  }

  /** Different users get different files. */
  lemma RdpContentInjective(u1: string, u2: string)
    ensures RdpContent(u1) == RdpContent(u2) <==> u1 == u2
  {
    RdpContentShape(u1);
    RdpContentShape(u2);
    var head := Unlines(RdpSettings());
    var l1, l2 := "username:s:" + u1, "username:s:" + u2;
    if RdpContent(u1) == RdpContent(u2) {
      assert head + l1 + "\n" == head + l2 + "\n";
      assert |l1| == |l2|;
      assert (head + l1 + "\n")[|head|..|head| + |l1|] == l1;
      assert (head + l2 + "\n")[|head|..|head| + |l2|] == l2;
      assert u1 == l1[11..] && u2 == l2[11..];
    }
  }

  /** The file names the loopback address on a line of its own. */
  lemma RdpTargetsLoopback(username: string)
    ensures Contains(RdpContent(username), "\n" + "full address:s:127.0.0.1" + "\n")
  {
    SettingInContent(username, 23);
    FullAddressSetting();
  }

  lemma FullAddressSetting()
    ensures Setting(23) == "full address:s:127.0.0.1"
  {
  }

  /** Every setting after the first is a line of the file. */
  lemma SettingInContent(username: string, k: nat)
    requires 0 < k < SETTING_COUNT
    ensures Contains(RdpContent(username), "\n" + Setting(k) + "\n")
  {
    UnlinesHasLine(RdpLines(username), k);
  }

  // ---------------------------------------------------------------------
  // disconnect_existing_sessions

  const SESSION_MARKERS: seq<string> := ["rdp-tcp", "Disc"]

  /** The session a line of the listing asks to log off: its third
      whitespace-separated field read as a non-zero `u32`, on a line that
      mentions "rdp-tcp" or "Disc" anywhere. */
  function LogoffTarget(line: string): (r: Option<int>)
    ensures r.Some? ==> 0 < r.value <= U32_MAX
    ensures r.Some? <==>
      && |SplitWhitespace(line)| >= 3
      && ParseU32(SplitWhitespace(line)[2]).Some?
      && ParseU32(SplitWhitespace(line)[2]).value != 0
      && (Contains(line, "rdp-tcp") || Contains(line, "Disc"))
    ensures r.Some? ==> ParseU32(SplitWhitespace(line)[2]) == r
  {
    var parts := SplitWhitespace(line);
    if |parts| >= 3 then
      match ParseU32(parts[2])
      case Some(id) =>
        if id != 0 && (Contains(line, "rdp-tcp") || Contains(line, "Disc")) then Some(id) else None
      case None => None
    else None
  }

  /** The target of one line, as a list of zero or one ids. */
  function TargetOf(line: string): (r: seq<int>)
    ensures |r| <= 1
  {
    match LogoffTarget(line)
    case Some(id) => [id]
    case None => []
  }

  /** The targets of a run of lines, in order. */
  function Targets(lines: seq<string>): (r: seq<int>)
    ensures |r| <= |lines|
  {
    if lines == [] then []
    else
      TargetOf(lines[0]) + Targets(lines[1..])
  }

  lemma {:induction false} TargetsAppend(a: seq<string>, line: string)
    ensures Targets(a + [line]) == Targets(a) + TargetOf(line)
  {
    if a == [] {
      assert a + [line] == [line] && [line][1..] == [];
      assert Targets([line]) == TargetOf(line) + Targets([]);
    } else {
      var b := a + [line];
      assert b[0] == a[0] && b[1..] == a[1..] + [line];
      TargetsAppend(a[1..], line);
      var x, y, z := TargetOf(a[0]), Targets(a[1..]), TargetOf(line);
      assert Targets(b) == x + (y + z);
      assert Targets(a) == x + y;
      assert x + (y + z) == x + y + z;
    }
  }

  /** An id is selected exactly when some line after the header targets it. */
  lemma {:induction false} TargetsMembers(lines: seq<string>, id: int)
    ensures id in Targets(lines) <==> exists i :: 0 <= i < |lines| && LogoffTarget(lines[i]) == Some(id)
  {
    if lines != [] {
      TargetsMembers(lines[1..], id);
      if id in Targets(lines[1..]) {
        var i :| 0 <= i < |lines[1..]| && LogoffTarget(lines[1..][i]) == Some(id);
        assert LogoffTarget(lines[i + 1]) == Some(id);
      }
      if exists i :: 0 <= i < |lines| && LogoffTarget(lines[i]) == Some(id) {
        var i :| 0 <= i < |lines| && LogoffTarget(lines[i]) == Some(id);
        if i > 0 {
          assert LogoffTarget(lines[1..][i - 1]) == Some(id);
        }
      }
    }
  }

  /** The sessions to log off, from the listing's text: every line but the
      first (the column header) may name one. */
  function LogoffIds(listing: string): (r: seq<int>)
  {
    var ls := Lines(listing);
    if ls == [] then [] else Targets(ls[1..])
  }

  /** One `logoff` per targeted line, in order. */
  lemma TargetsPrefix(lines: seq<string>, k: nat)
    requires k < |lines|
    ensures Targets(lines[..k + 1]) == Targets(lines[..k]) + TargetOf(lines[k])
  {
    assert lines[..k + 1] == lines[..k] + [lines[k]];
    TargetsAppend(lines[..k], lines[k]);
  }

  method LogoffAll(lines: seq<string>) returns (cmds: seq<Command>)
    ensures |cmds| == |Targets(lines)|
    ensures forall i :: 0 <= i < |cmds| ==> cmds[i] == Logoff(Targets(lines)[i])
  {
    var ids: seq<int> := [];
    var k := 0;
    while k < |lines|
      invariant 0 <= k <= |lines|
      invariant ids == Targets(lines[..k])
    {
      TargetsPrefix(lines, k);
      ids := ids + TargetOf(lines[k]);
      k := k + 1;
    }
    assert lines[..k] == lines;
    cmds := seq(|ids|, i requires 0 <= i < |ids| => Logoff(ids[i]));
  }

  /** `disconnect_existing_sessions`: decodes the listing lossily and issues
      one `logoff` per selected line, in order; nothing when the listing
      command did not run. */
  method DisconnectExisting(listing: Option<seq<byte>>) returns (cmds: seq<Command>)
    ensures listing.None? ==> cmds == []
    ensures listing.Some? ==> |cmds| == |LogoffIds(Utf8.Decode(listing.value))|
    ensures listing.Some? ==> forall i :: 0 <= i < |cmds| ==>
      cmds[i] == Logoff(LogoffIds(Utf8.Decode(listing.value))[i])
  {
    cmds := [];
    if listing.None? {
      return;
    }
    var ls := Lines(Utf8.Decode(listing.value));
    if ls != [] {
      cmds := LogoffAll(ls[1..]);
    }
  }

  /** The header line is never acted on, whatever it says. */
  lemma HeaderNeverSelected(header: string, rest: string)
    requires '\n' !in header && (header == [] || header[|header| - 1] != '\r')
    ensures LogoffIds(header + "\n" + rest) == Targets(Lines(rest))
  {
    LinesCons(header, rest);
    assert Lines(header + "\n" + rest)[1..] == Lines(rest);
  }

  // ---------------------------------------------------------------------
  // RdpSession::start and the slot state machine

  const CREDENTIAL_TARGET: string := "TERMSRV/127.0.0.1"

  /** `RdpSession::start`: logs off existing sessions, stores the
      credentials, writes the `.rdp` file and spawns the client, in that
      order. Only the spawn can fail the call; the other steps' failures
      are logged and ignored. */
  method StartSession(creds: Credentials, env: StartEnv) returns (r: Result<Session, SpawnError>, cmds: seq<Command>)
    ensures r.Ok? <==> env.spawned.Some?
    ensures r.Ok? ==> r.value == Session(env.spawned.value)
    ensures |cmds| >= 3 && cmds[|cmds| - 1] == SpawnClient
    ensures cmds[|cmds| - 3] == StoreCredentials(CREDENTIAL_TARGET, creds.username, creds.password)
    ensures cmds[|cmds| - 2] == WriteRdpFile(RdpContent(creds.username))
    ensures env.listing.None? ==> |cmds| == 3
    ensures forall i :: 0 <= i < |cmds| - 3 ==> cmds[i].Logoff?
  {
    var logoffs := DisconnectExisting(env.listing);
    cmds := logoffs + [StoreCredentials(CREDENTIAL_TARGET, creds.username, creds.password),
                       WriteRdpFile(RdpContent(creds.username)), SpawnClient];
    match env.spawned
    case Some(child) => r := Ok(Session(child));
    case None => r := Err(SpawnError);
  }

  /** `start_rdp_session_if_needed`. `poll` is what `try_wait` would report
      for the session in the slot; it is only consulted when there is one.
      Returns the call's result, the manager afterwards and the commands.
      Storing a new session drops the stale one it replaces, and dropping
      an `RdpSession` runs its `stop`: those commands follow the spawn. */
  method StartIfNeeded(m: Manager, poll: PollResult, env: StartEnv)
    returns (r: Result<bool, SpawnError>, m': Manager, cmds: seq<Command>)
    ensures m'.credentials == m.credentials
    ensures !ModeEnabled(m) ==> r == Ok(false) && m' == m && cmds == []
    ensures ModeEnabled(m) && m.session.Some? && IsRunning(poll) ==> r == Ok(true) && m' == m && cmds == []
    ensures ModeEnabled(m) && !(m.session.Some? && IsRunning(poll)) ==>
      && (r.Ok? <==> env.spawned.Some?)
      && (r.Ok? ==> r.value && m'.session == Some(Session(env.spawned.value)))
      && (r.Err? ==> m' == m)
      && SpawnClient in cmds
    ensures SpawnClient in cmds <==> ModeEnabled(m) && !(m.session.Some? && IsRunning(poll))
    ensures ReplacesStale(m, poll, env) ==>
      && |cmds| >= 4 && cmds[|cmds| - 4] == SpawnClient
      && cmds[|cmds| - 3..] == StopCommands(m.session.value.child)
    ensures !ReplacesStale(m, poll, env) ==> forall i :: 0 <= i < |cmds| ==> !cmds[i].KillClient?
  {
    if !ModeEnabled(m) {
      return Ok(false), m, [];
    }
    if m.session.Some? && IsRunning(poll) {
      return Ok(true), m, [];
    }
    var started;
    started, cmds := StartSession(m.credentials.value, env);
    NoKillInStart(cmds);
    match started
    case Ok(s) =>
      r := Ok(true);
      m' := m.(session := Some(s));
      if m.session.Some? {
        var stale := StopCommands(m.session.value.child);
        assert cmds[|cmds| - 1] in cmds;
        cmds := cmds + stale;
        assert cmds[|cmds| - 3..] == stale;
      }
    case Err(e) =>
      r := Err(e);
      m' := m;
  }

  /** Asking again while the session runs starts nothing: over two
      requests no client is spawned when a session was already running and
      exactly one when the first spawn worked; a failed spawn leaves the
      slot empty, so the second request tries again. */
  method StartTwiceWhileRunning(m: Manager, env1: StartEnv, env2: StartEnv)
    returns (spawns: nat)
    requires ModeEnabled(m)
    ensures m.session.Some? ==> spawns == 0
    ensures m.session.None? && env1.spawned.Some? ==> spawns == 1
    ensures m.session.None? && env1.spawned.None? ==> spawns == 2
  {
    var r1, m1, c1 := StartIfNeeded(m, StillRunning, env1);
    var r2, m2, c2 := StartIfNeeded(m1, StillRunning, env2);
    spawns := (if SpawnClient in c1 then 1 else 0) + (if SpawnClient in c2 then 1 else 0);
    if m.session.Some? {
      assert c1 == [] && c2 == [];
    } else if env1.spawned.Some? {
      assert m1.session.Some?;
      assert c2 == [];
    }
  }

  /** The commands of `start` kill no client. */
  lemma NoKillInStart(cmds: seq<Command>)
    requires |cmds| >= 3 && cmds[|cmds| - 1] == SpawnClient
    requires cmds[|cmds| - 3].StoreCredentials? && cmds[|cmds| - 2].WriteRdpFile?
    requires forall i :: 0 <= i < |cmds| - 3 ==> cmds[i].Logoff?
    ensures forall i :: 0 <= i < |cmds| ==> !cmds[i].KillClient?
  {
  }

  /** Whether `start_rdp_session_if_needed` replaces a session that is no
      longer running with a newly spawned one. */
  predicate ReplacesStale(m: Manager, poll: PollResult, env: StartEnv)
  {
    ModeEnabled(m) && m.session.Some? && !IsRunning(poll) && env.spawned.Some?
  }

  /** The `cmdkey` target `RdpSession::stop` deletes. */
  const STOP_DELETE_TARGET: string := "127.0.0.1"

  /** `RdpSession::stop`: kill the client, delete the credentials under
      `127.0.0.1`, log off; every failure is ignored. */
  function StopCommands(child: nat): (r: seq<Command>)
    ensures |r| == 3 && r[0] == KillClient(child) && r[2] == LogoffCurrent
  {
    [KillClient(child), DeleteCredentials(STOP_DELETE_TARGET), LogoffCurrent]
  }

  /** `stop_rdp_session`: stops the session in the slot, if any, then
      empties the slot; emptying it drops the session, and `Drop` runs
      `stop` a second time. */
  function Stop(m: Manager): (r: (Manager, seq<Command>))
    ensures r.0.session.None? && r.0.credentials == m.credentials
    ensures m.session.None? <==> r.1 == []
    ensures m.session.Some? ==>
      var once := StopCommands(m.session.value.child);
      r.1 == once + once
  {
    match m.session
    case None => (m.(session := None), [])
    case Some(s) =>
      (m.(session := None), StopCommands(s.child) + StopCommands(s.child))
  }

  /** Stopping never removes the credentials `start` stored: `stop` deletes
      the target `127.0.0.1`, while `start` stores under
      `TERMSRV/127.0.0.1`. */
  lemma StopKeepsStoredCredentials(m: Manager)
    ensures forall i :: 0 <= i < |Stop(m).1| && Stop(m).1[i].DeleteCredentials? ==>
      Stop(m).1[i].target != CREDENTIAL_TARGET
  {
    assert STOP_DELETE_TARGET[0] != CREDENTIAL_TARGET[0];
  }

  /** After a stop, the next request spawns a fresh client when headless
      mode is on, whatever the old child was doing. */
  method RestartAfterStop(m: Manager, poll: PollResult, env: StartEnv) returns (spawned: bool)
    requires ModeEnabled(m)
    ensures spawned
  {
    var (m1, _) := Stop(m);
    var r, m2, cmds := StartIfNeeded(m1, poll, env);
    spawned := SpawnClient in cmds;
  }

  // ---------------------------------------------------------------------
  // has_display_connected

  /** `has_display_connected`. `enumerated` is the number of displays
      `Display::all` found (`None`: it failed); `primaryOk` says whether
      `Display::primary` succeeded, asked only after a failed enumeration. */
  function DisplayConnected(enumerated: Option<nat>, primaryOk: bool): (r: bool)
    ensures enumerated.Some? ==> (r <==> enumerated.value > 0)
    ensures enumerated.None? ==> (r <==> primaryOk)
  {
    match enumerated
    case Some(n) => n != 0
    case None => primaryOk
  }

  /** A successful enumeration has the last word: the primary-display
      query cannot change the answer, even when it finds nothing. */
  lemma EnumerationDecides(n: nat, a: bool, b: bool)
    ensures DisplayConnected(Some(n), a) == DisplayConnected(Some(n), b)
    ensures !DisplayConnected(Some(0), true)
  {
  }
}
