/**
 * The session configuration and the checks `Config::parse` applies once the
 * command line has been read into it.
 */
module SessionConfig {
  import opened Wrappers
  import opened Bytes

  /** An `uint16_t`: the Linux event code that keys the transmitter. */
  type uint16 = x: int | 0 <= x < 0x1_0000

  /**
   * A `std::string`: the bytes the command line supplied, so a character
   * outside ASCII occupies as many elements as its encoding has bytes.
   */
  type Text = seq<Byte>

  /** The fields of `Config`, as the option parser leaves them. */
  datatype Config = Config(
    sourceAddress: Text,
    destinationAddress: Text,
    audioDevice: Text,
    eventDevice: Text,
    key: uint16,
    verbose: bool,
    debug: bool,
    quiet: bool,
    bitstream: bool)

  /** The longest source or destination identifier accepted. */
  const MaxIdentifierLength := 9

  /** Which diagnostic the rejection prints. */
  datatype ConfigError =
    | ConflictingVerbosity  // "Only one of quiet, verbos or debug may be chosen."
    | SourceTooLong         // "Source identifier too long."
    | DestinationTooLong    // "Destination identifier too long."

  /** A `bool` in an arithmetic context, as C++ promotes it. */
  function Weight(b: bool): nat { if b then 1 else 0 }

  /** `debug + verbose + quiet`, the sum the first check compares with 1. */
  function VerbositySum(c: Config): nat {
    Weight(c.debug) + Weight(c.verbose) + Weight(c.quiet)
  }

  /** The intended rule, stated without counting: no two flags together. */
  predicate AtMostOneVerbosity(c: Config) {
    !(c.debug && c.verbose) && !(c.debug && c.quiet) && !(c.verbose && c.quiet)
  }

  /** An identifier short enough to be encoded, counted in bytes as `size()` counts. */
  predicate Fits(id: Text) {
    |id| <= MaxIdentifierLength
  }

  /**
   * The three checks in source order, each returning its diagnostic. The
   * first failing check decides the diagnostic; a configuration passing all
   * three comes back unchanged.
   */
  function Check(c: Config): (r: Result<Config, ConfigError>)
    ensures r.Success? <==> AtMostOneVerbosity(c) && Fits(c.sourceAddress) && Fits(c.destinationAddress)
    ensures r.Success? ==> r.value == c
    ensures r == Failure(ConflictingVerbosity) <==> !AtMostOneVerbosity(c)
    ensures r == Failure(SourceTooLong) <==> AtMostOneVerbosity(c) && !Fits(c.sourceAddress)
    ensures r == Failure(DestinationTooLong) <==>
              AtMostOneVerbosity(c) && Fits(c.sourceAddress) && !Fits(c.destinationAddress)
  {
    if VerbositySum(c) > 1 then Failure(ConflictingVerbosity)
    else if |c.sourceAddress| > MaxIdentifierLength then Failure(SourceTooLong)
    else if |c.destinationAddress| > MaxIdentifierLength then Failure(DestinationTooLong)
    else Success(c)
  }

  /** What `Config::parse` returns after the checks: the config or nothing. */
  function Validate(c: Config): (r: Option<Config>)
    ensures r.Some? <==> AtMostOneVerbosity(c) && Fits(c.sourceAddress) && Fits(c.destinationAddress)
    ensures r.Some? ==> r.value == c
  {
    Check(c).ToOption()
  }

  /** The counting check agrees with the pairwise rule, in both directions. */
  lemma VerbositySumRule(c: Config)
    ensures VerbositySum(c) > 1 <==> !AtMostOneVerbosity(c)
  {
  }

  /** Whatever flag is set alone, the verbosity check passes. */
  lemma SingleFlagAccepted(c: Config)
    requires Fits(c.sourceAddress) && Fits(c.destinationAddress)
    requires Weight(c.debug) + Weight(c.verbose) + Weight(c.quiet) <= 1
    ensures Validate(c) == Some(c)
  {
  }

  /** The default, broadcast destination (empty) passes its check. */
  lemma BroadcastDestinationAccepted(c: Config)
    requires c.destinationAddress == []
    ensures Check(c) != Failure(DestinationTooLong)
    ensures Validate(c).Some? <==> AtMostOneVerbosity(c) && Fits(c.sourceAddress)
  {
  }

  /** A ten-byte source identifier is refused. */
  lemma TenByteSourceRejected(c: Config)
    requires |c.sourceAddress| == 10
    ensures Validate(c) == None
    ensures AtMostOneVerbosity(c) ==> Check(c) == Failure(SourceTooLong)
  {
  }

  /** Only the flags and the identifier lengths decide; the devices, key and output mode never do. */
  lemma ValidateIgnoresOtherFields(c: Config, audio: Text, event: Text, key: uint16, bitstream: bool)
    ensures Validate(c.(audioDevice := audio, eventDevice := event, key := key, bitstream := bitstream)).Some?
            == Validate(c).Some?
  {
  }
}
