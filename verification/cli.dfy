/** The command-line glue: the `--port-forward` option parser, the pairing
    of the headless-mode options, and the parts of the terminal client
    (`cli::Session`, `cli::connect_test`) that make decisions: where the
    password comes from, what a message box does, and which UI client
    executable gets launched. */
module Cli {
  import opened Wrappers
  import opened Text
  import opened Proto
  import Rdp
  import Relay
  import Renderer

  /** The port the bridge listens on in `connect_test` (and the port the
      direct-server flag announces). */
  const LOCAL_SERVER_PORT: nat := 21118

  /** The address `connect_test` has the bridge bind is not the one the
      renderer dials: distinct ports give distinct bind addresses. */
  lemma RendererDialsAnotherPort()
    ensures Relay.BindAddress(LOCAL_SERVER_PORT) != Relay.BindAddress(Renderer.RENDERER_PORT)
  {
    BindAddressInjective(LOCAL_SERVER_PORT, Renderer.RENDERER_PORT);
  }

  lemma BindAddressInjective(p: nat, q: nat)
    requires p != q
    ensures Relay.BindAddress(p) != Relay.BindAddress(q)
  {
  }

  // ---------------------------------------------------------------------
  // --port-forward id:local-port:remote-port[:remote-host]

  /** The three ways the option is rejected, each with its own log line. */
  datatype ForwardError = WrongOptions | WrongLocalPort | WrongRemotePort

  datatype PortForward = PortForward(id: string, localPort: int, remotePort: int, remoteHost: string)

  const DEFAULT_REMOTE_HOST: string := "localhost"

  /** The option value split on ':'. At least three fields are required;
      the second and third must parse as `i32` (checked in that order); the
      fourth, when present, is the remote host and the rest are ignored. */
  function ParsePortForward(spec: string): (r: Result<PortForward, ForwardError>)
    ensures var f := Split(spec, ':');
      r == Err(WrongOptions) <==> |f| < 3
    ensures var f := Split(spec, ':');
      r == Err(WrongLocalPort) <==> |f| >= 3 && ParseI32(f[1]).None?
    ensures var f := Split(spec, ':');
      r == Err(WrongRemotePort) <==> |f| >= 3 && ParseI32(f[1]).Some? && ParseI32(f[2]).None?
    ensures r.Ok? ==> var f := Split(spec, ':');
      && |f| >= 3
      && r.value.id == f[0]
      && Some(r.value.localPort) == ParseI32(f[1])
      && Some(r.value.remotePort) == ParseI32(f[2])
      && r.value.remoteHost == (if |f| > 3 then f[3] else DEFAULT_REMOTE_HOST)
  {
    var options := Split(spec, ':');
    if |options| < 3 then Err(WrongOptions)
    else
      match ParseI32(options[1])
      case None => Err(WrongLocalPort)
      case Some(port) =>
        match ParseI32(options[2])
        case None => Err(WrongRemotePort)
        case Some(remotePort) =>
          var remoteHost := if |options| > 3 then options[3] else DEFAULT_REMOTE_HOST;
          Ok(PortForward(options[0], port, remotePort, remoteHost))
  }

  /** The option text that asks for a forward: the four fields joined with
      ':', ports in decimal. */
  function FormatPortForward(pf: PortForward): string
  {
    Join([pf.id, DecimalString(pf.localPort), DecimalString(pf.remotePort), pf.remoteHost], ':')
  }

  lemma DecimalHasNoColon(n: int)
    ensures ':' !in DecimalString(n)
  {
    var s := DecimalString(n);
    if n < 0 {
      assert s == "-" + NatDigits(-n);
      assert forall i :: 1 <= i < |s| ==> s[i] == NatDigits(-n)[i - 1];
    }
  }

  /** Every forward whose id and host hold no ':' and whose ports fit an
      `i32` can be asked for, and parsing its option text gives it back. */
  lemma {:induction false} PortForwardRoundTrip(pf: PortForward)
    requires ':' !in pf.id && ':' !in pf.remoteHost
    requires I32_MIN <= pf.localPort <= I32_MAX && I32_MIN <= pf.remotePort <= I32_MAX
    ensures ParsePortForward(FormatPortForward(pf)) == Ok(pf)
  {
    var parts := [pf.id, DecimalString(pf.localPort), DecimalString(pf.remotePort), pf.remoteHost];
    DecimalHasNoColon(pf.localPort);
    DecimalHasNoColon(pf.remotePort);
    SplitJoin(parts, ':');
    ParseDecimal(pf.localPort, true, I32_MIN, I32_MAX);
    ParseDecimal(pf.remotePort, true, I32_MIN, I32_MAX);
  }

  lemma SplitThree(a: string, b: string, c: string)
    requires ':' !in a && ':' !in b && ':' !in c
    ensures Split(a + ":" + b + ":" + c, ':') == [a, b, c]
  {
    SplitNoSep(c, ':');
    SplitPrefix(b, c, ':');
    SplitPrefix(a, b + [':'] + c, ':');
    assert a + ":" + b + ":" + c == a + [':'] + (b + [':'] + c);
  }

  lemma SplitFourMore(a: string, b: string, c: string, d: string, rest: string)
    requires ':' !in a && ':' !in b && ':' !in c && ':' !in d
    ensures var f := Split(a + ":" + b + ":" + c + ":" + d + ":" + rest, ':');
      |f| >= 4 && f[0] == a && f[1] == b && f[2] == c && f[3] == d
  {
    var t3 := d + [':'] + rest;
    var t2 := c + [':'] + t3;
    var t1 := b + [':'] + t2;
    SplitPrefix(d, rest, ':');
    SplitPrefix(c, t3, ':');
    SplitPrefix(b, t2, ':');
    SplitPrefix(a, t1, ':');
    var f := Split(a + [':'] + t1, ':');
    assert f == [a] + ([b] + ([c] + ([d] + Split(rest, ':'))));
    JoinFive(a, b, c, d, rest);
  }

  /** The two spellings of a five-field line agree. */
  lemma JoinFive(a: string, b: string, c: string, d: string, rest: string)
    ensures a + ":" + b + ":" + c + ":" + d + ":" + rest
      == a + [':'] + (b + [':'] + (c + [':'] + (d + [':'] + rest)))
  {
  }

  /** With exactly three fields the host defaults to "localhost". */
  lemma PortForwardDefaultHost(id: string, local: string, remote: string)
    requires ':' !in id && ':' !in local && ':' !in remote
    requires ParseI32(local).Some? && ParseI32(remote).Some?
    ensures ParsePortForward(id + ":" + local + ":" + remote)
      == Ok(PortForward(id, ParseI32(local).value, ParseI32(remote).value, DEFAULT_REMOTE_HOST))
  {
    SplitThree(id, local, remote);
  }

  /** Fields after the fourth change nothing. */
  lemma PortForwardExtraFields(id: string, local: string, remote: string, host: string, extra: string)
    requires ':' !in id && ':' !in local && ':' !in remote && ':' !in host
    requires ParseI32(local).Some? && ParseI32(remote).Some?
    ensures ParsePortForward(id + ":" + local + ":" + remote + ":" + host + ":" + extra)
      == Ok(PortForward(id, ParseI32(local).value, ParseI32(remote).value, host))
  {
    SplitFourMore(id, local, remote, host, extra);
    var f := Split(id + ":" + local + ":" + remote + ":" + host + ":" + extra, ':');
    assert f[0] == id && f[1] == local && f[2] == remote && f[3] == host;
  }

  /** An empty port field is not a number, so "pc::80" is refused before
      the remote port is looked at; "pc:80" has too few fields. */
  lemma EmptyPortRejected()
    ensures ParsePortForward("pc::80") == Err(WrongLocalPort)
    ensures ParsePortForward("pc:80") == Err(WrongOptions)
  {
    SplitNoSep("80", ':');
    SplitPrefix("", "80", ':');
    assert "pc::80" == "pc" + [':'] + ":80" && ":80" == "" + [':'] + "80";
    SplitPrefix("pc", ":80", ':');
    assert "pc:80" == "pc" + [':'] + "80";
    SplitPrefix("pc", "80", ':');
  }

  // ---------------------------------------------------------------------
  // --rdp-id / --rdp-pw with --server

  /** Headless mode is switched on only when both options were given;
      otherwise the credentials slot is left as it was. */
  function RdpPairing(m: Rdp.Manager, rdpId: Option<string>, rdpPw: Option<string>): (r: Rdp.Manager)
    ensures r.session == m.session
    ensures rdpId.Some? && rdpPw.Some? ==> r.credentials == Some(Rdp.Credentials(rdpId.value, rdpPw.value))
    ensures rdpId.None? || rdpPw.None? ==> r == m
  {
    if rdpId.Some? && rdpPw.Some? then Rdp.SetCredentials(m, rdpId.value, rdpPw.value) else m
  }

  /** Starting from nothing, headless mode is on exactly when both options
      were given. */
  lemma PairingEnablesIff(rdpId: Option<string>, rdpPw: Option<string>)
    ensures Rdp.ModeEnabled(RdpPairing(Rdp.EMPTY, rdpId, rdpPw)) <==> rdpId.Some? && rdpPw.Some?
  {
  }

  // ---------------------------------------------------------------------
  // Session::new: where the password comes from

  /** Whether the password prompt is shown: only when no key was given and
      no password is saved for the peer. */
  predicate Prompts(key: string, saved: string)
  {
    key == [] && saved == []
  }

  /** The password a new session carries. `saved` is the password stored
      for the peer; `prompt` is what the terminal prompt returns (`None`:
      reading it failed, and the `unwrap` panics, modelled as `None`). */
  function SessionPassword(key: string, saved: string, prompt: Option<string>): (r: Option<string>)
    ensures key != [] ==> r == Some(key)
    ensures key == [] && saved != [] ==> r == Some("")
    ensures Prompts(key, saved) ==> r == prompt
  {
    if key != [] then Some(key)
    else if saved == [] then prompt
    else Some("")
  }

  /** The prompt's outcome matters exactly when the prompt is shown. */
  lemma PromptOnlyWhenNeeded(key: string, saved: string, p1: Option<string>, p2: Option<string>)
    ensures !Prompts(key, saved) ==> SessionPassword(key, saved, p1) == SessionPassword(key, saved, p2)
    ensures Prompts(key, saved) && p1 != p2 ==> SessionPassword(key, saved, p1) != SessionPassword(key, saved, p2)
  {
  }

  // ---------------------------------------------------------------------
  // Session::msgbox

  datatype LogLevel = Error | Info

  /** What a message box leads to: the data sent to the engine and the log
      lines written, by level. */
  datatype MsgboxEffect = MsgboxEffect(sent: seq<Data>, logs: seq<LogLevel>)

  function LoginWith(password: string): Data
  {
    Login("", "", password, true)
  }

  /** `Session::msgbox`. `password` is the session's password; `prompt` is
      what the terminal prompt returns when asked again (`None`: it
      failed). "input-password" answers with the session's password,
      "re-input-password" logs, prompts and answers with what was typed;
      any other type only logs, as an error when its name contains
      "error". */
  function Msgbox(msgtype: string, password: string, prompt: Option<string>): (r: MsgboxEffect)
    ensures |r.sent| <= 1
    ensures msgtype == "input-password" ==> r == MsgboxEffect([LoginWith(password)], [])
    ensures msgtype == "re-input-password" ==>
      && |r.logs| >= 1 && r.logs[0] == Error
      && (prompt.Some? ==> r.sent == [LoginWith(prompt.value)] && |r.logs| == 1)
      && (prompt.None? ==> r.sent == [] && r.logs == [Error, Error])
    ensures msgtype != "input-password" && msgtype != "re-input-password" ==>
      && r.sent == []
      && r.logs == [if Contains(msgtype, "error") then Error else Info]
  {
    if msgtype == "input-password" then MsgboxEffect([LoginWith(password)], [])
    else if msgtype == "re-input-password" then
      match prompt
      case Some(typed) => MsgboxEffect([LoginWith(typed)], [Error])
      case None => MsgboxEffect([], [Error, Error])
    else if Contains(msgtype, "error") then MsgboxEffect([], [Error])
    else MsgboxEffect([], [Info])
  }

  /** A login reply goes out exactly for the two password requests (the
      second only when the prompt worked), and it never carries OS
      credentials. */
  lemma MsgboxSendsIff(msgtype: string, password: string, prompt: Option<string>)
    ensures Msgbox(msgtype, password, prompt).sent != [] <==>
      msgtype == "input-password" || (msgtype == "re-input-password" && prompt.Some?)
    ensures forall d :: d in Msgbox(msgtype, password, prompt).sent ==>
      d.Login? && d.osUsername == "" && d.osPassword == "" && d.remember
  {
  }

  /** "re-input-password" is handled as a password request even though the
      error test comes later: a type that merely mentions "error" is only
      logged. */
  lemma ErrorTypesOnlyLog(password: string, prompt: Option<string>)
    ensures Msgbox("connection-error", password, prompt) == MsgboxEffect([], [Error])
  {
    assert OccursAt("connection-error", "error", 11);
  }

  // ---------------------------------------------------------------------
  // connect_test: launching the UI client

  /** The executables tried, in order, in the bridge's own directory. */
  const CLIENT_NAMES: seq<string> := ["sdf-client.exe", "sdfdesk-client.exe"]

  /** A candidate launches when it exists and its spawn succeeds; `present`
      and `spawns` stand for the file-system test and the process spawn. */
  predicate Launches(name: string, present: string -> bool, spawns: string -> bool)
  {
    present(name) && spawns(name)
  }

  /** The first candidate that launches, if any: a reference definition of
      the search. */
  function FirstLaunch(names: seq<string>, present: string -> bool, spawns: string -> bool): (r: Option<nat>)
    ensures r.Some? ==> r.value < |names| && Launches(names[r.value], present, spawns)
    ensures r.Some? ==> forall j :: 0 <= j < r.value ==> !Launches(names[j], present, spawns)
    ensures r.None? <==> forall j :: 0 <= j < |names| ==> !Launches(names[j], present, spawns)
  {
    if names == [] then None
    else if Launches(names[0], present, spawns) then Some(0)
    else
      match FirstLaunch(names[1..], present, spawns)
      case None => None
      case Some(k) => Some(k + 1)
  }

  /** The search loop: candidates that do not exist are skipped, a failed
      spawn moves on to the next one, the first successful spawn ends the
      search. Returns the index of the launched candidate and the
      candidates whose spawn was attempted. */
  method LaunchClient(names: seq<string>, present: string -> bool, spawns: string -> bool)
    returns (launched: Option<nat>, attempted: seq<nat>)
    ensures launched == FirstLaunch(names, present, spawns)
    ensures forall j :: 0 <= j < |attempted| ==> attempted[j] < |names| && present(names[attempted[j]])
    ensures forall j, k :: 0 <= j < k < |attempted| ==> attempted[j] < attempted[k]
    ensures launched.Some? ==> |attempted| > 0 && attempted[|attempted| - 1] == launched.value
    ensures forall i :: 0 <= i < |names| && present(names[i]) && (launched.None? || i <= launched.value) ==>
      i in attempted
  {
    launched := None;
    attempted := [];
    var i := 0;
    while i < |names|
      invariant 0 <= i <= |names|
      invariant forall j :: 0 <= j < i ==> !Launches(names[j], present, spawns)
      invariant Searched(names, present, attempted, i)
    {
      if present(names[i]) {
        AttemptStep(names, present, attempted, i);
        attempted := attempted + [i];
        if spawns(names[i]) {
          launched := Some(i);
          FirstLaunchAt(names, present, spawns, i);
          return;
        }
      }
      i := i + 1;
    }
    FirstLaunchNone(names, present, spawns);
  }

  /** After looking at the first `i` candidates: exactly the present ones
      were attempted, in order. */
  ghost predicate Searched(names: seq<string>, present: string -> bool, attempted: seq<nat>, i: nat)
    requires i <= |names|
  {
    && (forall j :: 0 <= j < |attempted| ==> attempted[j] < i && present(names[attempted[j]]))
    && (forall j, k :: 0 <= j < k < |attempted| ==> attempted[j] < attempted[k])
    && (forall j :: 0 <= j < i && present(names[j]) ==> j in attempted)
  }

  lemma AttemptStep(names: seq<string>, present: string -> bool, attempted: seq<nat>, i: nat)
    requires i < |names| && present(names[i]) && Searched(names, present, attempted, i)
    ensures Searched(names, present, attempted + [i], i + 1)
  {
    var a := attempted + [i];
    forall j | 0 <= j < i + 1 && present(names[j])
      ensures j in a
    {
      if j < i {
        assert j in attempted;
      } else {
        assert a[|attempted|] == j;
      }
    }
  }

  lemma FirstLaunchAt(names: seq<string>, present: string -> bool, spawns: string -> bool, i: nat)
    requires i < |names| && Launches(names[i], present, spawns)
    requires forall j :: 0 <= j < i ==> !Launches(names[j], present, spawns)
    ensures FirstLaunch(names, present, spawns) == Some(i)
  {
  }

  lemma FirstLaunchNone(names: seq<string>, present: string -> bool, spawns: string -> bool)
    requires forall j :: 0 <= j < |names| ==> !Launches(names[j], present, spawns)
    ensures FirstLaunch(names, present, spawns) == None
  {
  }

  /** With the shipped names: the preferred client wins whenever it
      launches, and failure is reported only when neither launched. */
  lemma ClientPreference(present: string -> bool, spawns: string -> bool)
    ensures Launches("sdf-client.exe", present, spawns) ==> FirstLaunch(CLIENT_NAMES, present, spawns) == Some(0)
    ensures FirstLaunch(CLIENT_NAMES, present, spawns).None? <==>
      !Launches("sdf-client.exe", present, spawns) && !Launches("sdfdesk-client.exe", present, spawns)
  {
    assert CLIENT_NAMES[0] == "sdf-client.exe" && CLIENT_NAMES[1] == "sdfdesk-client.exe";
  }
}
