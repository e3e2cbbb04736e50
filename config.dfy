/**
 * The command-line configuration of the four messaging programs. Each
 * `from_args` receives the whole argument vector, the program name at index 0.
 *
 * The synchronous server configuration validates host and port; the
 * synchronous client builds on it; the asynchronous programs only count
 * the arguments.
 */

/** `ServerConfig` of the synchronous messaging system's common crate. */
module SyncServerConfig {
  import opened Wrappers
  import opened Text
  import HostUtil

  datatype ServerConfig = ServerConfig(hostname: string, port: string)

  const NOT_PROVIDED := "The server configuration not provided!"
  const INVALID_HOSTNAME := "The invalid hostname provided!"
  const INVALID_PORT := "The invalid port provided!"

  /**
   * `from_args`: exactly two arguments after the program name, a valid
   * hostname, then a valid port; the hostname is checked first.
   */
  function FromArgs(args: seq<string>): (r: Result<ServerConfig, string>)
    ensures r.Ok? <==> |args| == 3 && HostUtil.IsValidHostname(args[1]) && HostUtil.IsPortValid(args[2])
    ensures r.Ok? ==> r.value.hostname == args[1] && r.value.port == args[2]
    ensures |args| != 3 ==> r == Err(NOT_PROVIDED)
    ensures |args| == 3 && !HostUtil.IsValidHostname(args[1]) ==> r == Err(INVALID_HOSTNAME)
    ensures |args| == 3 && HostUtil.IsValidHostname(args[1]) && !HostUtil.IsPortValid(args[2]) ==> r == Err(INVALID_PORT)
  {
    if |args| != 3 then Err(NOT_PROVIDED)
    else if !HostUtil.IsValidHostname(args[1]) then Err(INVALID_HOSTNAME)
    else if !HostUtil.IsPortValid(args[2]) then Err(INVALID_PORT)
    else Ok(ServerConfig(args[1], args[2]))
  }

  /** `Default`: the loopback address and port 11111. */
  function Default(): (c: ServerConfig)
    ensures ToString(c) == "127.0.0.1:11111"
    ensures HostUtil.ParseU16(c.port) == Some(11111)
  {
    DefaultPortValid();
    ServerConfig("127.0.0.1", "11111")
  }

  /** `Display`: `{hostname}:{port}`. */
  function ToString(c: ServerConfig): (s: string)
    ensures |s| == |c.hostname| + 1 + |c.port|
    ensures s[..|c.hostname|] == c.hostname && s[|c.hostname|] == ':' && s[|c.hostname| + 1..] == c.port
  {
    c.hostname + ":" + c.port
  }

  /** Joining pieces free of `c` with a separator free of `c` gives a string free of `c`. */
  lemma {:induction false} JoinWithout(parts: seq<string>, sep: string, c: char)
    requires forall k :: 0 <= k < |parts| ==> c !in parts[k]
    requires c !in sep
    ensures c !in Join(parts, sep)
  {
    if |parts| > 1 {
      JoinWithout(parts[1..], sep, c);
    }
  }

  /** A valid hostname is made of letters, digits, hyphens and dots only, so it has no colon. */
  lemma ValidHostnameHasNoColon(h: string)
    requires HostUtil.IsValidHostname(h)
    ensures ':' !in h
  {
    var parts := Split(h, '.');
    JoinSplit(h, '.');
    WellDottedNoColon(parts);
    JoinWithout(parts, ".", ':');
  }

  /** The labels and the top-level name of a well-dotted split hold no colon. */
  lemma WellDottedNoColon(parts: seq<string>)
    requires HostUtil.WellDotted(parts)
    ensures forall k :: 0 <= k < |parts| ==> ':' !in parts[k]
  {
    forall k | 0 <= k < |parts| ensures ':' !in parts[k] {
      if k < |parts| - 1 {
        assert HostUtil.IsLabel(parts[k]);
        assert forall i :: 0 <= i < |parts[k]| ==> HostUtil.IsLabelChar(parts[k][i]);
      } else {
        assert HostUtil.IsTopLevel(parts[k]);
      }
    }
  }

  /** A valid port is an optional `'+'` and digits, so it has no colon. */
  lemma ValidPortHasNoColon(p: string)
    requires HostUtil.IsPortValid(p)
    ensures ':' !in p
  {
    var digits := HostUtil.Unsigned(p);
    assert HostUtil.AllDigits(digits);
    if p[0] == '+' {
      assert p == ['+'] + digits;
    } else {
      assert p == digits;
    }
  }

  /**
   * The displayed form of an accepted configuration splits at its one colon
   * into exactly the hostname and the port that were given.
   */
  lemma DisplaySplitsBack(args: seq<string>)
    requires FromArgs(args).Ok?
    ensures Split(ToString(FromArgs(args).value), ':') == [args[1], args[2]]
  {
    ValidHostnameHasNoColon(args[1]);
    ValidPortHasNoColon(args[2]);
    var parts := [args[1], args[2]];
    assert Join(parts, [':']) == ToString(FromArgs(args).value);
    SplitJoin(parts, ':');
  }

  /** When hostname and port are both invalid, the hostname error is the one reported. */
  lemma HostnameCheckedFirst(args: seq<string>)
    requires |args| == 3 && !HostUtil.IsValidHostname(args[1]) && !HostUtil.IsPortValid(args[2])
    ensures FromArgs(args) == Err(INVALID_HOSTNAME)
  {
  }

  lemma DefaultPortValid()
    ensures HostUtil.IsPortValid("11111")
    ensures HostUtil.ParseU16("11111") == Some(11111)
  {
    HostUtil.PortNumeralValid(11111);
    assert NatToString(11111) == "11111" by {
      assert NatToString(1) == "1";
      assert NatToString(11) == "11";
      assert NatToString(111) == "111";
      assert NatToString(1111) == "1111";
    }
  }

  /**
   * The default host is an IPv4 address, which the hostname check refuses:
   * the default configuration could not have been given on the command line.
   */
  lemma DefaultNotAcceptedAsArgs(program: string)
    ensures Default().port == "11111" && HostUtil.IsPortValid(Default().port)
    ensures FromArgs([program, Default().hostname, Default().port]) == Err(INVALID_HOSTNAME)
  {
    HostUtil.LoopbackRejected();
    DefaultPortValid();
  }
}

/** `ClientConfig` of the synchronous messaging client. */
module SyncClientConfig {
  import opened Wrappers
  import SyncServerConfig

  datatype ClientConfig = ClientConfig(serverConfig: SyncServerConfig.ServerConfig, storagePath: string)

  const DEFAULT_STORAGE_PATH := "./storage"

  /**
   * `from_args`: the server configuration from the same arguments, or its
   * error; the storage path is the first argument when there are four
   * arguments, otherwise `./storage`.
   */
  function FromArgs(args: seq<string>): (r: Result<ClientConfig, string>)
    ensures r.Err? <==> SyncServerConfig.FromArgs(args).Err?
    ensures r.Err? ==> r.error == SyncServerConfig.FromArgs(args).error
    ensures r.Ok? ==> r.value.serverConfig == SyncServerConfig.FromArgs(args).value
  {
    // the choice is pure, so making it before the server configuration changes nothing
    var storagePath := if |args| == 4 then args[1] else DEFAULT_STORAGE_PATH;
    match SyncServerConfig.FromArgs(args)
    case Err(e) => Err(e)
    case Ok(server) => Ok(ClientConfig(server, storagePath))
  }

  /**
   * The server configuration accepts only three arguments, so a client
   * configuration always stores under `./storage`: the branch for four
   * arguments is never taken.
   */
  lemma StoragePathAlwaysDefault(args: seq<string>)
    requires FromArgs(args).Ok?
    ensures |args| == 3
    ensures FromArgs(args).value.storagePath == DEFAULT_STORAGE_PATH
  {
  }

  /** A fourth argument, meant as a storage path, makes the configuration fail. */
  lemma FourArgumentsRejected(args: seq<string>)
    requires |args| == 4
    ensures FromArgs(args) == Err(SyncServerConfig.NOT_PROVIDED)
  {
  }

  /** `Default`: the default server and `./storage`. */
  function Default(): (c: ClientConfig)
    ensures c.serverConfig == SyncServerConfig.Default() && c.storagePath == "./storage"
    ensures ToString(c) == "127.0.0.1:11111"
  {
    ClientConfig(SyncServerConfig.Default(), DEFAULT_STORAGE_PATH)
  }

  /** `Display`: the server's `{hostname}:{port}`; the storage path is not shown. */
  function ToString(c: ClientConfig): (s: string)
    ensures s == c.serverConfig.hostname + ":" + c.serverConfig.port
  {
    SyncServerConfig.ToString(c.serverConfig)
  }

  /** The displayed default is the loopback address with port 11111. */
  lemma DefaultDisplay()
    ensures ToString(Default()) == "127.0.0.1:11111"
    ensures Default().storagePath == "./storage"
  {
  }
}

/** `ServerConfig` of the asynchronous messaging server. */
module AsyncServerConfig {
  import opened Wrappers

  datatype ServerConfig = ServerConfig(hostname: string, port: string)

  const NOT_PROVIDED := "The server configuration not provided!"

  /** `from_args`: exactly two arguments after the program name, taken as they are. */
  function FromArgs(args: seq<string>): (r: Result<ServerConfig, string>)
    ensures r.Ok? <==> |args| == 3
    ensures r.Ok? ==> r.value.hostname == args[1] && r.value.port == args[2]
    ensures r.Err? ==> r.error == NOT_PROVIDED
  {
    if |args| != 3 then Err(NOT_PROVIDED) else Ok(ServerConfig(args[1], args[2]))
  }

  /** `Default`: the loopback address and port 11111. */
  function Default(): (c: ServerConfig)
    ensures ToString(c) == "127.0.0.1:11111"
  {
    ServerConfig("127.0.0.1", "11111")
  }

  /** `Display`: `{hostname}:{port}`. */
  function ToString(c: ServerConfig): (s: string)
    ensures |s| == |c.hostname| + 1 + |c.port|
    ensures s[..|c.hostname|] == c.hostname && s[|c.hostname|] == ':' && s[|c.hostname| + 1..] == c.port
  {
    c.hostname + ":" + c.port
  }

  /** No validation: any two arguments are accepted, and displaying the result shows them back. */
  lemma AnyTwoArgumentsAccepted(program: string, hostname: string, port: string)
    ensures FromArgs([program, hostname, port]).Ok?
    ensures ToString(FromArgs([program, hostname, port]).value) == hostname + ":" + port
  {
  }

  /** The displayed default is the loopback address with port 11111. */
  lemma DefaultDisplay()
    ensures ToString(Default()) == "127.0.0.1:11111"
  {
  }
}

/** `ClientConfig` of the asynchronous messaging client. */
module AsyncClientConfig {
  import opened Wrappers

  datatype ClientConfig = ClientConfig(serverHostname: string, serverPort: string, storagePath: string)

  const DEFAULT_STORAGE_PATH := "./storage"
  const NOT_PROVIDED := "The client configuration not provided!"

  /**
   * `from_args` as written: at least two arguments after the program name;
   * host and port are the first two; with exactly three arguments the
   * storage path is the FIRST argument (the hostname), otherwise `./storage`.
   */
  function FromArgs(args: seq<string>): (r: Result<ClientConfig, string>)
    ensures r.Ok? <==> |args| >= 3
    ensures r.Err? ==> r.error == NOT_PROVIDED
    ensures r.Ok? ==> r.value.serverHostname == args[1] && r.value.serverPort == args[2]
    ensures r.Ok? && |args| != 4 ==> r.value.storagePath == DEFAULT_STORAGE_PATH
  {
    if |args| < 3 then Err(NOT_PROVIDED)
    else
      var storagePath := if |args| == 4 then args[1] else DEFAULT_STORAGE_PATH;
      Ok(ClientConfig(args[1], args[2], storagePath))
  }

  /**
   * As written, a storage directory given as the third argument is ignored:
   * `client 127.0.0.1 11111 ./inbox` stores under `127.0.0.1`.
   */
  lemma StorageArgumentIgnored()
    ensures FromArgs(["client", "127.0.0.1", "11111", "./inbox"]).value.storagePath == "127.0.0.1"
  {
  }

  /** With four arguments the storage path is the hostname, whatever the third argument says. */
  lemma FourArgumentsStoreUnderHostname(args: seq<string>)
    requires |args| == 4
    ensures FromArgs(args).Ok? && FromArgs(args).value.storagePath == args[1]
  {
  }

  /** `from_args` as evidently intended: a third argument is the storage path. */
  function FromArgsIntended(args: seq<string>): (r: Result<ClientConfig, string>)
    ensures r.Ok? <==> |args| >= 3
    ensures r.Ok? && |args| == 4 ==> r.value.storagePath == args[3]
  {
    if |args| < 3 then Err(NOT_PROVIDED)
    else
      var storagePath := if |args| == 4 then args[3] else DEFAULT_STORAGE_PATH;
      Ok(ClientConfig(args[1], args[2], storagePath))
  }

  /** The intended version differs from the code as written only in the storage path of four-argument calls. */
  lemma IntendedAgreesElsewhere(args: seq<string>)
    ensures |args| != 4 ==> FromArgsIntended(args) == FromArgs(args)
    ensures FromArgsIntended(args).Ok? ==>
      FromArgsIntended(args).value.(storagePath := "") == FromArgs(args).value.(storagePath := "")
  {
  }

  /** `Default`: the loopback address, port 11111 and `./storage`. */
  function Default(): (c: ClientConfig)
    ensures c.serverHostname + ":" + c.serverPort == "127.0.0.1:11111"
    ensures c.storagePath == "./storage"
  {
    ClientConfig("127.0.0.1", "11111", DEFAULT_STORAGE_PATH)
  }

  /** The default stores under `./storage` and connects to the loopback address on port 11111. */
  lemma DefaultValues()
    ensures Default().serverHostname + ":" + Default().serverPort == "127.0.0.1:11111"
    ensures Default().storagePath == "./storage"
  {
  }
}
