/** Coordinate liftover through the UCSC `liftOver` program
    (src/server/liftover.py): chain-file naming, platform detection,
    provisioning of the binary and the chain file, and `lift_over` itself.
    The filesystem, the downloads, the operating system's name, `which`,
    and the external program are parameters of the model. */
module Liftover {
  import opened Wrappers
  import opened Text
  import opened Region

  // ---------------------------------------------------------------
  // Names and addresses
  // ---------------------------------------------------------------

  const ChainSuffix: string := ".over.chain.gz"
  const UcscExeBase: string := "https://hgdownload.soe.ucsc.edu/admin/exe"

  /** The text of the `IndexError` raised by `to_asm[0]` on an empty string. */
  const IndexErrorText: string := "string index out of range"

  /** `_get_chain_name`: both names are stripped; the source assembly is
      lowercased and the target gets an uppercase first letter and a
      lowercase rest (`None`: the target is blank and indexing it fails). */
  function ChainName(fromAsm: string, toAsm: string): (r: Option<string>)
    ensures r.None? <==> Trim(toAsm) == []
  {
    var f := Trim(fromAsm);
    var t := Trim(toAsm);
    if t == [] then None
    else Some(Lower(f) + "To" + [UpperChar(t[0])] + Lower(t[1..]) + ChainSuffix)
  }

  /** `CHAIN_URL_TEMPLATE`, filled in with the source assembly as given
      (not stripped or lowercased). */
  function ChainUrl(fromAsm: string, chainName: string): string {
    "https://hgdownload.soe.ucsc.edu/goldenPath/" + fromAsm + "/liftOver/" + chainName
  }

  function BinaryUrl(folder: string): string {
    UcscExeBase + "/" + folder + "/liftOver"
  }

  /** `_detect_platform_folder`, given the name `platform.system()`
      reports. */
  function DetectPlatformFolder(system: string): (r: Result<string, string>)
    ensures r.Err? ==> r.error == "Unsupported OS for liftOver: " + Lower(system)
    ensures r.Ok? ==> r.value == "linux.x86_64" || r.value == "macOSX.x86_64"
  {
    var s := Lower(system);
    if IsSubstring("linux", s) then Ok("linux.x86_64")
    else if IsSubstring("darwin", s) || IsSubstring("mac", s) then Ok("macOSX.x86_64")
    else Err("Unsupported OS for liftOver: " + s)
  }

  // ---------------------------------------------------------------
  // The environment
  // ---------------------------------------------------------------

  /** The paths that exist, and those of them with an execute bit. */
  datatype FileSystem = FileSystem(files: set<string>, executables: set<string>)

  /** What a download (`urlretrieve` and the move into place) comes to. */
  datatype Fetch = Fetched | FetchFailed(reason: string)

  /** What provisioning a file comes to: already there, downloaded now, or
      the text of the exception raised. */
  datatype Provision = Present(path: string) | Installed(path: string, url: string) | Unavailable(error: string)

  /** `BIN_PATH` and `CHAIN_DIR` relative to `LIFTOVER_BASE`. */
  function BinPath(base: string): string { base + "/liftOver" }
  function ChainDir(base: string): string { base + "/chains" }
  function ChainPath(base: string, chainName: string): string { ChainDir(base) + "/" + chainName }

  // ---------------------------------------------------------------
  // ensure_liftover_binary and ensure_chain_file
  // ---------------------------------------------------------------

  /** `ensure_liftover_binary(force)`. `executableAfterInstall` says whether
      the `chmod` after the download leaves the file executable;
      `underPytest` stands for `PYTEST_CURRENT_TEST` being set, which skips
      the final check. Only the binary's own path is touched. */
  function EnsureLiftoverBinary(base: string, fs: FileSystem, system: string, fetch: Fetch,
                                executableAfterInstall: bool, underPytest: bool, force: bool)
    : (r: (Provision, FileSystem))
    ensures r.0.Present? <==> !force && BinPath(base) in fs.files && BinPath(base) in fs.executables
    ensures !r.0.Unavailable? ==> r.0.path == BinPath(base) && BinPath(base) in r.1.files
                                  && (BinPath(base) in r.1.executables || underPytest)
    ensures r.1.files - {BinPath(base)} == fs.files - {BinPath(base)}
    ensures r.1.executables - {BinPath(base)} == fs.executables - {BinPath(base)}
    ensures r.0.Present? || fetch.FetchFailed? || DetectPlatformFolder(system).Err? ==> r.1 == fs
    ensures r.0.Installed? ==>
      fetch.Fetched? && DetectPlatformFolder(system).Ok? && r.0.url == BinaryUrl(DetectPlatformFolder(system).value)
  {
    var bin := BinPath(base);
    if !force && bin in fs.files && bin in fs.executables then (Present(bin), fs)
    else match DetectPlatformFolder(system)
      case Err(e) => (Unavailable(e), fs)
      case Ok(folder) =>
        var url := BinaryUrl(folder);
        match fetch
        case FetchFailed(reason) =>
          (Unavailable("Failed to download or install liftOver binary from " + url + ": " + reason), fs)
        case Fetched =>
          var installed := FileSystem(fs.files + {bin},
                                      if executableAfterInstall then fs.executables + {bin} else fs.executables - {bin});
          if bin !in installed.executables && !underPytest
          then (Unavailable("liftOver binary is not executable at " + bin), installed)
          else (Installed(bin, url), installed)
  }

  /** `ensure_chain_file(from_asm, to_asm, force)`: only the chain file's
      own path is touched. */
  function EnsureChainFile(base: string, fs: FileSystem, fromAsm: string, toAsm: string, fetch: Fetch, force: bool)
    : (r: (Provision, FileSystem))
    ensures ChainName(fromAsm, toAsm).None? ==> r == (Unavailable(IndexErrorText), fs)
    ensures ChainName(fromAsm, toAsm).Some? ==>
      var path := ChainPath(base, ChainName(fromAsm, toAsm).value);
      && (r.0.Present? <==> path in fs.files && !force)
      && (!r.0.Unavailable? ==> r.0.path == path && path in r.1.files)
      && r.1.files - {path} == fs.files - {path}
    ensures r.1.executables == fs.executables
    ensures r.0.Present? || fetch.FetchFailed? ==> r.1 == fs
    ensures r.0.Installed? ==>
      fetch.Fetched? && ChainName(fromAsm, toAsm).Some? && r.0.url == ChainUrl(fromAsm, ChainName(fromAsm, toAsm).value)
  {
    match ChainName(fromAsm, toAsm)
    case None => (Unavailable(IndexErrorText), fs)
    case Some(name) =>
      var path := ChainPath(base, name);
      if path in fs.files && !force then (Present(path), fs)
      else
        var url := ChainUrl(fromAsm, name);
        match fetch
        case FetchFailed(reason) => (Unavailable("Could not download chain file from " + url + ": " + reason), fs)
        case Fetched => (Installed(path, url), fs.(files := fs.files + {path}))
  }

  /** Once the binary is in place and executable, provisioning it again
      does nothing, whatever the network or the platform. */
  lemma EnsureBinaryIdempotent(base: string, fs: FileSystem, system: string, fetch: Fetch,
                               executable: bool, underPytest: bool, force: bool,
                               system2: string, fetch2: Fetch, executable2: bool, underPytest2: bool)
    requires !EnsureLiftoverBinary(base, fs, system, fetch, executable, underPytest, force).0.Unavailable?
    requires BinPath(base) in EnsureLiftoverBinary(base, fs, system, fetch, executable, underPytest, force).1.executables
    ensures var after := EnsureLiftoverBinary(base, fs, system, fetch, executable, underPytest, force).1;
            EnsureLiftoverBinary(base, after, system2, fetch2, executable2, underPytest2, false)
            == (Present(BinPath(base)), after)
  {
  }

  /** The ways provisioning the binary fails, each with its message:
      an unsupported platform, a failed download (quoting the URL for the
      platform), and a binary left without its execute bit. */
  lemma EnsureBinaryFailures(base: string, fs: FileSystem, system: string, fetch: Fetch,
                             executable: bool, underPytest: bool, force: bool)
    requires force || BinPath(base) !in fs.files || BinPath(base) !in fs.executables
    ensures var r := EnsureLiftoverBinary(base, fs, system, fetch, executable, underPytest, force).0;
      match DetectPlatformFolder(system)
      case Err(e) => r == Unavailable(e)
      case Ok(folder) =>
        match fetch
        case FetchFailed(reason) =>
          r == Unavailable("Failed to download or install liftOver binary from " + BinaryUrl(folder) + ": " + reason)
        case Fetched =>
          r == if executable || underPytest then Installed(BinPath(base), BinaryUrl(folder))
               else Unavailable("liftOver binary is not executable at " + BinPath(base))
  {
  }

  /** Once a chain file is on disk it is reused; a failed download names
      the URL built from the source assembly as given. */
  lemma EnsureChainReuseAndFailure(base: string, fs: FileSystem, fromAsm: string, toAsm: string,
                                   fetch: Fetch, force: bool, fetch2: Fetch)
    requires ChainName(fromAsm, toAsm).Some?
    ensures var name := ChainName(fromAsm, toAsm).value;
      var r := EnsureChainFile(base, fs, fromAsm, toAsm, fetch, force);
      && (!r.0.Unavailable? ==> EnsureChainFile(base, r.1, fromAsm, toAsm, fetch2, false) == (Present(r.0.path), r.1))
      && (r.0.Unavailable? ==> r.0.error == "Could not download chain file from " + ChainUrl(fromAsm, name) + ": " + fetch.reason)
  {
  }

  // ---------------------------------------------------------------
  // Properties of the names
  // ---------------------------------------------------------------

  lemma LowerTail(s: string)
    requires s != []
    ensures Lower(s)[1..] == Lower(s[1..]) && Lower(s)[0] == LowerChar(s[0])
  {
  }

  lemma ChainNameParts(fromAsm: string, toAsm: string, f: string, c: char, rest: string)
    requires Lower(Trim(fromAsm)) == f
    requires Trim(toAsm) != [] && Trim(toAsm)[0] == c && Trim(toAsm)[1..] == rest
    ensures ChainName(fromAsm, toAsm) == Some(f + "To" + [UpperChar(c)] + Lower(rest) + ChainSuffix)
  {
  }

  lemma ChainNameExample(fromAsm: string, toAsm: string)
    requires fromAsm == "hg19" && toAsm == "hg38"
    ensures ChainName(fromAsm, toAsm) == Some("hg19ToHg38.over.chain.gz")
  {
    TrimNoEdgeSpace(fromAsm);
    TrimNoEdgeSpace(toAsm);
    ExampleLower(fromAsm, "g38");
    ChainNameParts(fromAsm, toAsm, "hg19", 'h', "g38");
    ExampleChainName("hg19", 'h', "g38", "hg19ToHg38.over.chain.gz");
  }

  /** The names of the padded example, once stripped. */
  lemma SpacedExampleTrims(fromAsm: string, toAsm: string)
    requires fromAsm == "  Hg19 " && toAsm == " mm10 "
    ensures Trim(fromAsm) == "Hg19" && Trim(toAsm) == "mm10"
  {
    assert fromAsm == "  " + "Hg19" + " " && toAsm == " " + "mm10" + " ";
    assert AllSpace("  ") && AllSpace(" ");
    TrimPadded("  ", "Hg19", " ");
    TrimPadded(" ", "mm10", " ");
  }

  /** Padding and capitals in the assembly names do not matter. */
  lemma ChainNameSpacedExample(fromAsm: string, toAsm: string)
    requires fromAsm == "  Hg19 " && toAsm == " mm10 "
    ensures ChainName(fromAsm, toAsm) == Some("hg19ToMm10.over.chain.gz")
  {
    SpacedExampleTrims(fromAsm, toAsm);
    ExampleLower("Hg19", "m10");
    ChainNameParts(fromAsm, toAsm, "hg19", 'm', "m10");
    ExampleChainName("hg19", 'm', "m10", "hg19ToMm10.over.chain.gz");
  }

  // The pieces of the two examples above, each checked on its own.
  lemma ExampleLower(f: string, rest: string)
    requires (f == "hg19" || f == "Hg19") && (rest == "g38" || rest == "m10")
    ensures Lower(f) == "hg19" && Lower(rest) == rest
  {
  }

  lemma ExampleChainName(f: string, c: char, rest: string, name: string)
    requires f == "hg19"
    requires (c == 'h' && rest == "g38" && name == "hg19ToHg38.over.chain.gz")
          || (c == 'm' && rest == "m10" && name == "hg19ToMm10.over.chain.gz")
    ensures f + "To" + [UpperChar(c)] + rest + ChainSuffix == name
  {
  }

  /** Surrounding whitespace does not change the chain name. */
  lemma ChainNameIgnoresSpace(fromAsm: string, toAsm: string)
    ensures ChainName(fromAsm, toAsm) == ChainName(Trim(fromAsm), Trim(toAsm))
  {
    TrimIdempotent(fromAsm);
    TrimIdempotent(toAsm);
  }

  lemma LowerTrimLower(s: string)
    ensures Lower(Trim(Lower(s))) == Lower(Trim(s))
  {
    TrimLower(s);
    LowerIdempotent(Trim(s));
  }

  lemma TrimLowerSplit(s: string)
    requires Trim(s) != []
    ensures Trim(Lower(s)) != [] && Trim(Lower(s))[0] == LowerChar(Trim(s)[0])
    ensures Trim(Lower(s))[1..] == Lower(Trim(s)[1..])
  {
    TrimLower(s);
    LowerTail(Trim(s));
  }

  lemma UpperLowerChar(c: char)
    ensures UpperChar(LowerChar(c)) == UpperChar(c)
  {
  }

  /** Nor does case. */
  lemma ChainNameIgnoresCase(fromAsm: string, toAsm: string)
    ensures ChainName(fromAsm, toAsm) == ChainName(Lower(fromAsm), Lower(toAsm))
  {
    var t := Trim(toAsm);
    if t == [] {
      TrimLower(toAsm);
    } else {
      var f := Lower(Trim(fromAsm));
      LowerTrimLower(fromAsm);
      TrimLowerSplit(toAsm);
      ChainNameParts(fromAsm, toAsm, f, t[0], t[1..]);
      ChainNameParts(Lower(fromAsm), Lower(toAsm), f, LowerChar(t[0]), Lower(t[1..]));
      UpperLowerChar(t[0]);
      LowerIdempotent(t[1..]);
    }
  }

  lemma UpperCharOfLowercase(c: char)
    requires 'a' <= c <= 'z'
    ensures UpperChar(c) != c
  {
  }

  /** `lift_over` with `ensure_chain=False` looks for
      `{from_asm}To{to_asm}.over.chain.gz` as given, which is not the name
      the download gives the file: for trimmed, lowercase assembly names the
      two differ in the case of the target's first letter. */
  lemma UnensuredChainNameDiffers(fromAsm: string, toAsm: string)
    requires Trim(fromAsm) == fromAsm && Lower(fromAsm) == fromAsm
    requires Trim(toAsm) == toAsm && toAsm != [] && 'a' <= toAsm[0] <= 'z'
    ensures ChainName(fromAsm, toAsm).Some?
    ensures ChainName(fromAsm, toAsm).value != fromAsm + "To" + toAsm + ChainSuffix
  {
    UpperCharOfLowercase(toAsm[0]);
    ChainNameParts(fromAsm, toAsm, fromAsm, toAsm[0], toAsm[1..]);
    var ensured := fromAsm + "To" + [UpperChar(toAsm[0])] + Lower(toAsm[1..]) + ChainSuffix;
    var raw := fromAsm + "To" + toAsm + ChainSuffix;
    assert ensured[|fromAsm| + 2] == UpperChar(toAsm[0]);
    assert raw[|fromAsm| + 2] == toAsm[0];
  }

  /** The platform folder depends only on the lowercased system name. */
  lemma PlatformIgnoresCase(system: string)
    ensures DetectPlatformFolder(Lower(system)) == DetectPlatformFolder(system)
  {
    LowerIdempotent(system);
  }

  lemma PlatformLinux()
    ensures DetectPlatformFolder("Linux") == Ok("linux.x86_64")
  {
    assert Lower("Linux") == "linux";
    SubstringOfSelf("linux");
  }

  lemma PlatformDarwin()
    ensures DetectPlatformFolder("Darwin") == Ok("macOSX.x86_64")
  {
    var s := Lower("Darwin");
    assert s == "darwin";
    CharNotInText("linux", s, 0);
    SubstringOfSelf("darwin");
  }

  /** A system name whose lowercase form has none of the letters `l`
      (of "linux"), `r` (of "darwin") and `m` (of "mac") is refused, with
      the lowercased name in the message. */
  lemma PlatformUnsupported(system: string)
    requires 'l' !in Lower(system) && 'r' !in Lower(system) && 'm' !in Lower(system)
    ensures DetectPlatformFolder(system) == Err("Unsupported OS for liftOver: " + Lower(system))
  {
    var s := Lower(system);
    CharNotInText("linux", s, 0);
    CharNotInText("darwin", s, 2);
    CharNotInText("mac", s, 0);
  }

  /** Windows is refused. */
  lemma PlatformWindows(system: string)
    requires system == "Windows"
    ensures DetectPlatformFolder(system) == Err("Unsupported OS for liftOver: windows")
  {
    var s := Lower(system);
    assert s == "windows";
    assert 'l' !in s && 'r' !in s && 'm' !in s;
    PlatformUnsupported(system);
    assert "Unsupported OS for liftOver: " + s == "Unsupported OS for liftOver: windows";
  }

  // ---------------------------------------------------------------
  // lift_over
  // ---------------------------------------------------------------

  /** What running the liftOver program comes to: it could not be started
      (the exception's text), or it exited with a status, its standard
      error, the text of the `CalledProcessError` a nonzero status raises,
      and the contents of the output BED file (`None`: no such file). */
  datatype ProcessOutcome =
    | LaunchFailed(reason: string)
    | Exited(code: int, stderr: string, report: string, output: Option<string>)

  /** The exceptions `lift_over` lets escape: the `ValueError` of
      `parse_region`, and the `ValueError` of unpacking or reading back an
      output line that lacks three tab-separated fields or an integer
      start. */
  datatype Fault = InvalidRegion(message: string) | MalformedOutput

  datatype LiftOutcome =
    | Lifted(input: string, fromAsm: string, toAsm: string, output: string)
    | Failed(error: string)
    | Raised(fault: Fault)

  /** Everything `lift_over` consults besides its arguments: where
      `LIFTOVER_BASE` is, the filesystem, the platform name, the outcome of
      each download, the `PYTEST_CURRENT_TEST` escape, what
      `shutil.which("liftOver")` returns, and the program itself as a
      function of the binary, the input BED text and the chain file. */
  datatype Env = Env(
    base: string,
    fs: FileSystem,
    system: string,
    binaryFetch: Fetch,
    executableAfterInstall: bool,
    underPytest: bool,
    which: Option<string>,
    chainFetch: Fetch,
    tool: (string, string, string) -> ProcessOutcome)

  /** The binary to run and the filesystem after provisioning it. */
  function ResolveBinary(env: Env, ensureBinary: bool): (r: Result<(string, FileSystem), string>)
    ensures r.Ok? ==> r.value.0 in r.value.1.files
    ensures r.Ok? && ensureBinary ==> r.value.0 == BinPath(env.base)
  {
    if ensureBinary then
      var (p, fs) := EnsureLiftoverBinary(env.base, env.fs, env.system, env.binaryFetch,
                                          env.executableAfterInstall, env.underPytest, false);
      if p.Unavailable? then Err("Missing liftOver binary: " + p.error) else Ok((p.path, fs))
    else
      var bin := if env.which.Some? && env.which.value != "" then env.which.value else BinPath(env.base);
      if bin in env.fs.files then Ok((bin, env.fs)) else Err("liftOver binary not found")
  }

  /** The name `lift_over` looks for when it does not provision the chain. */
  function RawChainName(fromAsm: string, toAsm: string): string {
    fromAsm + "To" + toAsm + ChainSuffix
  }

  /** The chain file to use. */
  function ResolveChain(env: Env, fs: FileSystem, fromAsm: string, toAsm: string, ensureChain: bool)
    : (r: Result<string, string>)
    ensures r.Ok? && ensureChain ==>
      ChainName(fromAsm, toAsm).Some? && r.value == ChainPath(env.base, ChainName(fromAsm, toAsm).value)
    ensures r.Ok? && !ensureChain ==> r.value == ChainPath(env.base, RawChainName(fromAsm, toAsm)) && r.value in fs.files
  {
    if ensureChain then
      var p := EnsureChainFile(env.base, fs, fromAsm, toAsm, env.chainFetch, false).0;
      if p.Unavailable? then Err("Missing chain file: " + p.error) else Ok(p.path)
    else
      var path := ChainPath(env.base, RawChainName(fromAsm, toAsm));
      if path in fs.files then Ok(path) else Err("Chain file not found: " + path)
  }

  /** The one BED line written for a region: BED starts are 0-based. */
  function BedLine(r: Region): string {
    r.chrom + "\t" + IntToString(r.start - 1) + "\t" + IntToString(r.end) + "\n"
  }

  /** `f.readline()`: everything up to and including the first newline. */
  function ReadLine(text: string): (r: string)
    ensures IsPrefix(r, text)
    ensures forall i :: 0 <= i < |r| - 1 ==> r[i] != '\n'
    ensures r == text || (r != [] && r[|r| - 1] == '\n')
  {
    if text == [] then []
    else if text[0] == '\n' then "\n"
    else [text[0]] + ReadLine(text[1..])
  }

  /** An output line read back as `chrom:start-end`, the start shifted back
      to 1-based and the end copied as written (`None`: the `ValueError`). */
  function MapOutputLine(line: string): (r: Option<string>)
    ensures r.Some? ==> |Split(Trim(line), '\t')| >= 3
  {
    var fields := Split(Trim(line), '\t');
    if |fields| < 3 then None
    else match ParseInt(fields[1])
      case None => None
      case Some(start) => Some(fields[0] + ":" + IntToString(start + 1) + "-" + fields[2])
  }

  function NoMappingMessage(region: string, fromAsm: string, toAsm: string): string {
    "No mapping found for " + region + " (" + fromAsm + "->" + toAsm + ")"
  }

  /** Running the program with `check=True` and reading its output. */
  function RunLiftover(tool: (string, string, string) -> ProcessOutcome, bin: string, chain: string,
                       r: Region, region: string, fromAsm: string, toAsm: string): (out: LiftOutcome)
    ensures out.Lifted? ==> out.input == region && out.fromAsm == fromAsm && out.toAsm == toAsm
    ensures out.Raised? ==> out.fault == MalformedOutput
  {
    match tool(bin, BedLine(r), chain)
    case LaunchFailed(reason) => Failed("Execution failed: " + reason)
    case Exited(code, stderr, report, output) =>
      if code != 0 then Failed("Execution failed: " + (if Trim(stderr) != "" then Trim(stderr) else report))
      // The source's own test for a failed run; `check=True` has raised
      // before it can hold.
      else if code != 0 && output.None? then Failed("liftOver failed: " + Trim(stderr))
      else if output.None? || output.value == "" then Failed(NoMappingMessage(region, fromAsm, toAsm))
      else match MapOutputLine(ReadLine(output.value))
        case Some(mapped) => Lifted(region, fromAsm, toAsm, mapped)
        case None => Raised(MalformedOutput)
  }

  /** `lift_over(region, from_asm, to_asm, ensure_binary, ensure_chain)`. */
  function LiftOver(region: string, fromAsm: string, toAsm: string,
                    ensureBinary: bool, ensureChain: bool, env: Env): (r: LiftOutcome)
    ensures r.Lifted? ==> r.input == region && r.fromAsm == fromAsm && r.toAsm == toAsm
    ensures (r.Raised? && r.fault.InvalidRegion?) <==> ParseRegion(region).Err?
  {
    match ParseRegion(region)
    case Err(message) => Raised(InvalidRegion(message))
    case Ok(reg) =>
      match ResolveBinary(env, ensureBinary)
      case Err(e) => Failed(e)
      case Ok((bin, fs)) =>
        match ResolveChain(env, fs, fromAsm, toAsm, ensureChain)
        case Err(e) => Failed(e)
        case Ok(chain) => RunLiftover(env.tool, bin, chain, reg, region, fromAsm, toAsm)
  }

  // ---------------------------------------------------------------
  // Properties of lift_over
  // ---------------------------------------------------------------

  /** A malformed region raises before anything is provisioned or run,
      whatever the environment. */
  lemma InvalidRegionRaises(region: string, fromAsm: string, toAsm: string,
                            ensureBinary: bool, ensureChain: bool, env: Env)
    requires ParseRegion(region).Err?
    ensures LiftOver(region, fromAsm, toAsm, ensureBinary, ensureChain, env)
            == Raised(InvalidRegion(InvalidRegionMessage(region)))
  {
  }

  /** The binary is settled first: a failed provisioning, or with
      `ensure_binary=False` a binary found neither by `which` nor at
      `BIN_PATH`, ends the call with its message, before the chain. */
  lemma BinaryFailureStops(region: string, fromAsm: string, toAsm: string,
                           ensureBinary: bool, ensureChain: bool, env: Env)
    requires ParseRegion(region).Ok? && ResolveBinary(env, ensureBinary).Err?
    ensures var out := LiftOver(region, fromAsm, toAsm, ensureBinary, ensureChain, env);
      if ensureBinary then
        out == Failed("Missing liftOver binary: "
                      + EnsureLiftoverBinary(env.base, env.fs, env.system, env.binaryFetch,
                                             env.executableAfterInstall, env.underPytest, false).0.error)
      else out == Failed("liftOver binary not found")
  {
  }

  /** With the binary settled, a chain that cannot be provisioned, or with
      `ensure_chain=False` a chain file missing under the raw name, ends the
      call with its message. */
  lemma ChainFailureStops(region: string, fromAsm: string, toAsm: string,
                          ensureBinary: bool, ensureChain: bool, env: Env)
    requires ParseRegion(region).Ok? && ResolveBinary(env, ensureBinary).Ok?
    requires ResolveChain(env, ResolveBinary(env, ensureBinary).value.1, fromAsm, toAsm, ensureChain).Err?
    ensures var fs := ResolveBinary(env, ensureBinary).value.1;
      var out := LiftOver(region, fromAsm, toAsm, ensureBinary, ensureChain, env);
      if ensureChain then
        out == Failed("Missing chain file: " + EnsureChainFile(env.base, fs, fromAsm, toAsm, env.chainFetch, false).0.error)
      else out == Failed("Chain file not found: " + ChainPath(env.base, RawChainName(fromAsm, toAsm)))
  {
  }

  /** A blank target assembly makes the chain name fail with the
      `IndexError` text. */
  lemma BlankTargetAssembly(region: string, fromAsm: string, toAsm: string, ensureBinary: bool, env: Env)
    requires ParseRegion(region).Ok? && ResolveBinary(env, ensureBinary).Ok? && Trim(toAsm) == []
    ensures LiftOver(region, fromAsm, toAsm, ensureBinary, true, env)
            == Failed("Missing chain file: " + IndexErrorText)
  {
  }

  /** The program is run only once both stages pass, on the resolved binary,
      the region's BED line and the resolved chain. */
  lemma RunsOnResolvedFiles(region: string, fromAsm: string, toAsm: string,
                            ensureBinary: bool, ensureChain: bool, env: Env)
    requires ParseRegion(region).Ok? && ResolveBinary(env, ensureBinary).Ok?
    requires ResolveChain(env, ResolveBinary(env, ensureBinary).value.1, fromAsm, toAsm, ensureChain).Ok?
    ensures var bin := ResolveBinary(env, ensureBinary).value;
      var chain := ResolveChain(env, bin.1, fromAsm, toAsm, ensureChain).value;
      LiftOver(region, fromAsm, toAsm, ensureBinary, ensureChain, env)
      == RunLiftover(env.tool, bin.0, chain, ParseRegion(region).value, region, fromAsm, toAsm)
  {
  }

  /** Every nonzero exit status is reported as an execution failure (with
      the stripped standard error, or else the exception's text), whether or
      not an output file exists; so `liftOver failed` is never returned. */
  lemma NonzeroExitIsExecutionFailure(tool: (string, string, string) -> ProcessOutcome, bin: string,
                                      chain: string, r: Region, region: string, fromAsm: string, toAsm: string)
    requires tool(bin, BedLine(r), chain).Exited? && tool(bin, BedLine(r), chain).code != 0
    ensures var p := tool(bin, BedLine(r), chain);
      RunLiftover(tool, bin, chain, r, region, fromAsm, toAsm)
      == Failed("Execution failed: " + (if Trim(p.stderr) != "" then Trim(p.stderr) else p.report))
  {
  }

  /** A clean exit with a missing or empty output file means that no
      mapping was found. */
  lemma NoOutputIsNoMapping(tool: (string, string, string) -> ProcessOutcome, bin: string,
                            chain: string, r: Region, region: string, fromAsm: string, toAsm: string)
    requires tool(bin, BedLine(r), chain).Exited? && tool(bin, BedLine(r), chain).code == 0
    requires tool(bin, BedLine(r), chain).output in {None, Some("")}
    ensures RunLiftover(tool, bin, chain, r, region, fromAsm, toAsm) == Failed(NoMappingMessage(region, fromAsm, toAsm))
  {
  }

  lemma {:induction false} ReadLineStopsAtNewline(x: string, rest: string)
    requires '\n' !in x
    ensures ReadLine(x + "\n" + rest) == x + "\n"
  {
    if x != [] {
      assert (x + "\n" + rest)[1..] == x[1..] + "\n" + rest;
      ReadLineStopsAtNewline(x[1..], rest);
      assert [x[0]] + (x[1..] + "\n") == x + "\n";
    }
  }

  lemma NumeralHasNoWhitespace(i: int)
    ensures '\t' !in IntToString(i) && '\n' !in IntToString(i)
    ensures IntToString(i) != [] && !IsSpace(IntToString(i)[0]) && !IsSpace(IntToString(i)[|IntToString(i)| - 1])
  {
    var m := NatToString(if i < 0 then -i else i);
    AllDigitsAt(m);
  }

  /** The fields of a tab-separated line `chrom, start, end, ...`. */
  lemma SplitOutputFields(chrom: string, num: string, end: string, tail: string)
    requires '\t' !in chrom && '\t' !in num && '\t' !in end
    requires tail == [] || tail[0] == '\t'
    ensures var fields := Split(chrom + "\t" + num + "\t" + end + tail, '\t');
      |fields| >= 3 && fields[0] == chrom && fields[1] == num && fields[2] == end
  {
    var back := if tail == [] then [end] else [end] + Split(tail[1..], '\t');
    if tail == [] {
      assert end + tail == end;
      SplitNoSeparator(end, '\t');
    } else {
      assert end + tail == end + ['\t'] + tail[1..];
      SplitAfterFirst(end, tail[1..], '\t');
    }
    assert Split(end + tail, '\t') == back;
    assert num + "\t" + end + tail == num + ['\t'] + (end + tail);
    SplitAfterFirst(num, end + tail, '\t');
    assert chrom + "\t" + num + "\t" + end + tail == chrom + ['\t'] + (num + "\t" + end + tail);
    SplitAfterFirst(chrom, num + "\t" + end + tail, '\t');
  }

  /** Reading back a BED line `chrom <TAB> start <TAB> end [<TAB> ...]`
      gives `chrom:start+1-end`: the start moves from 0-based to 1-based,
      the end is copied as written, and further fields and lines are
      ignored. */
  lemma MapOutputLineShift(chrom: string, start: int, end: string, tail: string, rest: string)
    requires chrom != [] && !IsSpace(chrom[0]) && '\t' !in chrom && '\n' !in chrom
    requires '\t' !in end && '\n' !in end && '\n' !in tail
    requires tail == [] ==> end != [] && !IsSpace(end[|end| - 1])
    requires tail != [] ==> tail[0] == '\t' && !IsSpace(tail[|tail| - 1])
    ensures MapOutputLine(ReadLine(chrom + "\t" + IntToString(start) + "\t" + end + tail + "\n" + rest))
            == Some(chrom + ":" + IntToString(start + 1) + "-" + end)
  {
    var num := IntToString(start);
    NumeralHasNoWhitespace(start);
    var x := chrom + "\t" + num + "\t" + end + tail;
    assert x[0] == chrom[0];
    assert x[|x| - 1] == if tail == [] then end[|end| - 1] else tail[|tail| - 1];
    assert '\n' !in x;
    ReadLineStopsAtNewline(x, rest);
    TrimTrailingNewline(x);
    SplitOutputFields(chrom, num, end, tail);
    ParseIntToString(start);
  }

  /** A first output line with no tab in it cannot be unpacked. */
  lemma LineWithoutFieldsRaises(line: string)
    requires '\t' !in line
    ensures MapOutputLine(line) == None
  {
    TrimChars(line);
    SplitNoSeparator(Trim(line), '\t');
  }

  /** An exit without error whose first output line has no tab makes
      `lift_over` raise instead of answering. */
  lemma TablessOutputRaises(tool: (string, string, string) -> ProcessOutcome, bin: string,
                            chain: string, r: Region, region: string, fromAsm: string, toAsm: string)
    requires tool(bin, BedLine(r), chain).Exited? && tool(bin, BedLine(r), chain).code == 0
    requires tool(bin, BedLine(r), chain).output.Some? && tool(bin, BedLine(r), chain).output.value != ""
    requires '\t' !in ReadLine(tool(bin, BedLine(r), chain).output.value)
    ensures RunLiftover(tool, bin, chain, r, region, fromAsm, toAsm) == Raised(MalformedOutput)
  {
    LineWithoutFieldsRaises(ReadLine(tool(bin, BedLine(r), chain).output.value));
  }

  /** The output line `chr1\t150\t250` is reported as `chr1:151-250`. */
  lemma MapOutputLineExample(line: string)
    requires line == "chr1\t150\t250\n"
    ensures MapOutputLine(ReadLine(line)) == Some("chr1:151-250")
  {
    var chrom, start, end := "chr1", IntToString(150), "250";
    ExampleFields(chrom, start, end);
    ExampleLine(line, chrom, start, end);
    MapOutputLineShift(chrom, 150, end, "", "");
    ExampleAnswer(chrom, end);
  }

  // The pieces of the example above, each checked on its own.
  lemma ExampleFields(chrom: string, start: string, end: string)
    requires chrom == "chr1" && start == IntToString(150) && end == "250"
    ensures chrom != [] && !IsSpace(chrom[0]) && '\t' !in chrom && '\n' !in chrom
    ensures '\t' !in end && '\n' !in end && end != [] && !IsSpace(end[|end| - 1])
    ensures start == "150"
  {
  }

  lemma ExampleLine(line: string, chrom: string, start: string, end: string)
    requires line == "chr1\t150\t250\n" && chrom == "chr1" && start == "150" && end == "250"
    ensures line == chrom + "\t" + start + "\t" + end + "" + "\n" + ""
  {
  }

  lemma ExampleAnswer(chrom: string, end: string)
    requires chrom == "chr1" && end == "250"
    ensures chrom + ":" + IntToString(151) + "-" + end == "chr1:151-250"
  {
  }

  /** A run whose output file holds `chr1\t150\t250` lifts to
      `chr1:151-250`, echoing the inputs. */
  lemma RunLiftoverExample(tool: (string, string, string) -> ProcessOutcome, bin: string,
                           chain: string, r: Region, region: string, fromAsm: string, toAsm: string)
    requires tool(bin, BedLine(r), chain).Exited? && tool(bin, BedLine(r), chain).code == 0
    requires tool(bin, BedLine(r), chain).output == Some("chr1\t150\t250\n")
    ensures RunLiftover(tool, bin, chain, r, region, fromAsm, toAsm) == Lifted(region, fromAsm, toAsm, "chr1:151-250")
  {
    MapOutputLineExample("chr1\t150\t250\n");
  }

  /** A program that maps every interval onto itself. */
  function IdentityTool(): (string, string, string) -> ProcessOutcome {
    (bin: string, bed: string, chain: string) => Exited(0, "", "", Some(bed))
  }

  /** The 1-based to 0-based shift on the way in and its inverse on the
      way out cancel: under the identity mapping the region comes back as
      `chrom:start-end`. */
  lemma IdentityLiftRoundTrip(region: string, fromAsm: string, toAsm: string, bin: string, chain: string)
    requires ParseRegion(region).Ok?
    requires var c := ParseRegion(region).value.chrom;
      c != [] && !IsSpace(c[0]) && '\t' !in c && '\n' !in c
    ensures var r := ParseRegion(region).value;
      RunLiftover(IdentityTool(), bin, chain, r, region, fromAsm, toAsm)
      == Lifted(region, fromAsm, toAsm, FormatRegion(r.chrom, r.start, r.end))
  {
    var r := ParseRegion(region).value;
    IdentityRunMapsBack(r, bin, chain);
  }

  lemma IdentityRunMapsBack(r: Region, bin: string, chain: string)
    requires r.chrom != [] && !IsSpace(r.chrom[0]) && '\t' !in r.chrom && '\n' !in r.chrom
    ensures MapOutputLine(ReadLine(BedLine(r))) == Some(FormatRegion(r.chrom, r.start, r.end))
  {
    var end := IntToString(r.end);
    NumeralHasNoWhitespace(r.end);
    assert BedLine(r) == r.chrom + "\t" + IntToString(r.start - 1) + "\t" + end + [] + "\n" + [];
    MapOutputLineShift(r.chrom, r.start - 1, end, [], []);
    assert r.start - 1 + 1 == r.start;
  }

  /** What the identity mapping returns parses back to the region it was
      given. */
  lemma LiftedRegionParsesBack(region: string)
    requires ParseRegion(region).Ok?
    ensures var r := ParseRegion(region).value;
      ParseRegion(FormatRegion(r.chrom, r.start, r.end)) == Ok(r)
  {
    var r := ParseRegion(region).value;
    var coords, a, b := ParseRegionDecompose(region);
    ParsedCoordinatesNonNegative(region);
    ParseFormatRoundTrip(r.chrom, r.start, r.end);
  }
}
