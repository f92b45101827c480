// Command-line handling of main: the getopt loop over "p:f:", the check
// for a missing -f, and the settings that startup then uses.

module Options {
  datatype Option<T> = None | Some(value: T)

  /** Port used when no -p is given (DEFAULT_PORT). */
  const DEFAULT_PORT: nat := 843

  /** One option as getopt hands it over. `PortArg` carries what atoi made
    * of the argument of -p; `Unrecognized` is getopt's '?', returned for an
    * unknown option letter and for an option whose argument is missing. */
  datatype Opt = PortArg(value: int) | FileArg(path: string) | Unrecognized

  /** Why main exits with status 1 before doing anything else. */
  datatype Rejection = UnknownOption | InvalidPort | MissingPolicyFile

  datatype Settings = Settings(port: nat, policyFile: string)

  /** Where option handling leaves main: go on with these settings, or
    * exit with status 1. */
  datatype Configuration = Start(settings: Settings) | Stop(reason: Rejection)

  /** The value an unsigned short holds after the int `v` is stored in it:
    * `v` reduced modulo 2^16 (Dafny's `%` is never negative, which is what
    * the conversion to an unsigned type does). */
  function Truncate16(v: int): (p: nat)
    ensures p < 0x1_0000
    ensures (v - p) % 0x1_0000 == 0
    ensures 0 <= v < 0x1_0000 ==> p == v
  {
    v % 0x1_0000
  }

  /** The rejection one option causes on its own, if any: an unknown option,
    * or a port that truncates to 0. */
  function Rejects(o: Opt): Option<Rejection>
  {
    match o
    case PortArg(v) => if Truncate16(v) == 0 then Some(InvalidPort) else None
    case FileArg(_) => None
    case Unrecognized => Some(UnknownOption)
  }

  /** The rejection caused by the first option that causes one. */
  function FirstRejection(opts: seq<Opt>): Option<Rejection>
    decreases |opts|
  {
    if opts == [] then None
    else match FirstRejection(opts[..|opts| - 1])
      case Some(r) => Some(r)
      case None => Rejects(opts[|opts| - 1])
  }

  /** The port the last -p sets, or the default when there is none. */
  function LastPort(opts: seq<Opt>): nat
    decreases |opts|
  {
    if opts == [] then DEFAULT_PORT
    else match opts[|opts| - 1]
      case PortArg(v) => Truncate16(v)
      case _ => LastPort(opts[..|opts| - 1])
  }

  /** The path of the last -f, if any. */
  function LastFile(opts: seq<Opt>): Option<string>
    decreases |opts|
  {
    if opts == [] then None
    else match opts[|opts| - 1]
      case FileArg(p) => Some(p)
      case _ => LastFile(opts[..|opts| - 1])
  }

  /** What option handling decides for the whole command line. */
  function Configure(opts: seq<Opt>): Configuration
  {
    match FirstRejection(opts)
    case Some(r) => Stop(r)
    case None =>
      match LastFile(opts)
      case None => Stop(MissingPolicyFile)
      case Some(f) => Start(Settings(LastPort(opts), f))
  }

  /** The getopt loop of main followed by the check for -f. It stops at the
    * first option it rejects; each -p replaces the port and each -f the
    * policy file path. */
  method ParseOptions(opts: seq<Opt>) returns (c: Configuration)
    ensures c == Configure(opts)
  {
    var port := DEFAULT_PORT;
    var policyFile: Option<string> := None;
    var i := 0;
    while i < |opts|
      invariant 0 <= i <= |opts|
      invariant FirstRejection(opts[..i]) == None
      invariant port == LastPort(opts[..i])
      invariant policyFile == LastFile(opts[..i])
    {
      assert opts[..i + 1][..i] == opts[..i];
      match opts[i] {
        case PortArg(v) =>
          port := Truncate16(v);
          if port == 0 {
            RejectionSticks(opts, i + 1);
            return Stop(InvalidPort);
          }
        case FileArg(p) =>
          policyFile := Some(p);
        case Unrecognized =>
          RejectionSticks(opts, i + 1);
          return Stop(UnknownOption);
      }
      i := i + 1;
    }
    assert opts[..i] == opts;
    if policyFile == None {
      return Stop(MissingPolicyFile);
    }
    return Start(Settings(port, policyFile.value));
  }

  /** Once a prefix of the command line is rejected, so is the whole of it,
    * for the same reason: options after the rejected one are never looked
    * at. */
  lemma {:induction false} RejectionSticks(opts: seq<Opt>, n: nat)
    requires n <= |opts| && FirstRejection(opts[..n]).Some?
    ensures FirstRejection(opts) == FirstRejection(opts[..n])
    decreases |opts| - n
  {
    if n < |opts| {
      assert opts[..n + 1][..n] == opts[..n];
      RejectionSticks(opts, n + 1);
    } else {
      assert opts[..n] == opts;
    }
  }

  /** A command line is rejected by one of its options exactly when some
    * option is unknown or gives a port that truncates to 0. */
  lemma {:induction false} FirstRejectionFinds(opts: seq<Opt>)
    ensures FirstRejection(opts).Some? <==> exists i :: 0 <= i < |opts| && Rejects(opts[i]).Some?
    decreases |opts|
  {
    if opts != [] {
      var init := opts[..|opts| - 1];
      FirstRejectionFinds(init);
      if FirstRejection(init).Some? {
        var i :| 0 <= i < |init| && Rejects(init[i]).Some?;
        assert opts[i] == init[i];
      }
      if exists i :: 0 <= i < |opts| && Rejects(opts[i]).Some? {
        var i :| 0 <= i < |opts| && Rejects(opts[i]).Some?;
        if i < |init| {
          assert Rejects(init[i]).Some?;
        }
      }
    }
  }

  /** LastFile names the path of an -f that no later -f overrides, and is
    * None exactly when there is no -f at all. */
  lemma {:induction false} LastFileIsLast(opts: seq<Opt>)
    ensures LastFile(opts).None? <==> forall i :: 0 <= i < |opts| ==> !opts[i].FileArg?
    ensures LastFile(opts).Some? ==>
      exists i :: 0 <= i < |opts| && opts[i] == FileArg(LastFile(opts).value) &&
        forall j :: i < j < |opts| ==> !opts[j].FileArg?
    decreases |opts|
  {
    if opts != [] {
      var n := |opts| - 1;
      var init := opts[..n];
      LastFileIsLast(init);
      assert forall i :: 0 <= i < n ==> init[i] == opts[i];
      if !opts[n].FileArg? && LastFile(init).Some? {
        var k :| 0 <= k < n && init[k] == FileArg(LastFile(init).value) &&
          forall j :: k < j < n ==> !init[j].FileArg?;
        assert opts[k] == init[k];
      }
    }
  }

  /** Without any -p the port stays the default. */
  lemma {:induction false} LastPortDefault(opts: seq<Opt>)
    requires forall i :: 0 <= i < |opts| ==> !opts[i].PortArg?
    ensures LastPort(opts) == DEFAULT_PORT
    decreases |opts|
  {
    if opts != [] {
      var n := |opts| - 1;
      assert forall i :: 0 <= i < n ==> opts[..n][i] == opts[i];
      LastPortDefault(opts[..n]);
    }
  }

  /** LastPort is the truncated value of a -p that no later -p overrides. */
  lemma {:induction false} LastPortIsLast(opts: seq<Opt>, i: nat)
    requires i < |opts| && opts[i].PortArg?
    ensures exists k ::
      && i <= k < |opts| && opts[k].PortArg? && LastPort(opts) == Truncate16(opts[k].value)
      && forall j :: k < j < |opts| ==> !opts[j].PortArg?
    decreases |opts|
  {
    var n := |opts| - 1;
    if opts[n].PortArg? {
      assert LastPort(opts) == Truncate16(opts[n].value);
    } else {
      var init := opts[..n];
      assert init[i] == opts[i];
      LastPortIsLast(init, i);
      var k :| i <= k < n && init[k].PortArg? && LastPort(init) == Truncate16(init[k].value) &&
        forall j :: k < j < n ==> !init[j].PortArg?;
      assert opts[k] == init[k];
      assert forall j :: k < j < n ==> opts[j] == init[j];
    }
  }

  /** Option handling stops main exactly when some option is unknown, some
    * -p truncates to port 0, or no -f is given; when it lets main go on,
    * the port is 843 unless a -p overrides it, it is the truncated value of
    * the last -p otherwise, it is never 0, and the policy file is the path
    * of the last -f. */
  lemma ConfigureDecides(opts: seq<Opt>)
    ensures Configure(opts).Stop? <==>
      (exists i :: 0 <= i < |opts| && Rejects(opts[i]).Some?) ||
      (forall i :: 0 <= i < |opts| ==> !opts[i].FileArg?)
    ensures Configure(opts).Start? ==>
      var s := Configure(opts).settings;
      && 0 < s.port < 0x1_0000
      && ((forall i :: 0 <= i < |opts| ==> !opts[i].PortArg?) ==> s.port == DEFAULT_PORT)
      && ((exists i :: 0 <= i < |opts| && opts[i].PortArg?) ==>
            exists i :: 0 <= i < |opts| && opts[i].PortArg? && s.port == Truncate16(opts[i].value) &&
              forall j :: i < j < |opts| ==> !opts[j].PortArg?)
      && (exists i :: 0 <= i < |opts| && opts[i] == FileArg(s.policyFile) &&
            forall j :: i < j < |opts| ==> !opts[j].FileArg?)
  {
    FirstRejectionFinds(opts);
    LastFileIsLast(opts);
    if forall i :: 0 <= i < |opts| ==> !opts[i].PortArg? {
      LastPortDefault(opts);
    } else {
      var i :| 0 <= i < |opts| && opts[i].PortArg?;
      LastPortIsLast(opts, i);
      if Configure(opts).Start? {
        var k :| i <= k < |opts| && opts[k].PortArg? && LastPort(opts) == Truncate16(opts[k].value) &&
          forall j :: k < j < |opts| ==> !opts[j].PortArg?;
        assert Rejects(opts[k]) == None;
      }
    }
  }

  /** Ports outside 1..65535 are not all rejected: only those that truncate
    * to 0 are. 70000 becomes 4464, -1 becomes 65535, and 65536 stops main. */
  lemma OutOfRangePortsWrap(path: string)
    ensures Configure([PortArg(70000), FileArg(path)]) == Start(Settings(4464, path))
    ensures Configure([PortArg(-1), FileArg(path)]) == Start(Settings(65535, path))
    ensures Configure([FileArg(path), PortArg(65536)]) == Stop(InvalidPort)
  {
    var wide, negative, zero := [PortArg(70000), FileArg(path)], [PortArg(-1), FileArg(path)],
      [FileArg(path), PortArg(65536)];
    assert wide[..1] == [PortArg(70000)] && wide[..1][..0] == [];
    assert negative[..1] == [PortArg(-1)] && negative[..1][..0] == [];
    assert zero[..1] == [FileArg(path)] && zero[..1][..0] == [];
    assert Truncate16(70000) == 4464 && Truncate16(-1) == 65535 && Truncate16(65536) == 0;
    assert LastPort([PortArg(70000)]) == 4464;
    assert FirstRejection(wide[..1]) == None && LastPort(wide[..1]) == 4464;
    assert FirstRejection(negative[..1]) == None && LastPort(negative[..1]) == 65535;
    assert FirstRejection(zero[..1]) == None;
  }
}
