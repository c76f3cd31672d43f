/**
 * The client's run configuration: the view rectangle, the iteration cap, the
 * image size, the tile side and the server list, read from the command line or
 * taken from the built-in defaults.
 */
module ClientConfig {

  datatype Config = Config(
    xMin: real, yMin: real, xMax: real, yMax: real,
    maxN: int, x: int, y: int, dim: int,
    servers: seq<string>)

  /** The fallback configuration: [-1.5, 0.5] x [-1, 1], 600 by 600 pixels, one local server. */
  const Defaults: Config :=
    Config(-1.5, -1.0, 0.5, 1.0, 1024, 600, 600, 4, ["localhost:3000"])

  /**
   * parseArgs(argv), argv without the script name. With nine or more arguments
   * the first eight are x_min, y_min, x_max, y_max, max_n, x, y, dim and the rest
   * name the servers; with fewer, the defaults. Python's float() and int() are
   * the parameters toReal and toInt.
   */
  function ParseArgs(argv: seq<string>, toReal: string -> real, toInt: string -> int): (c: Config)
    ensures |c.servers| >= 1
    ensures |argv| >= 9 ==>
      && c.xMin == toReal(argv[0]) && c.yMin == toReal(argv[1])
      && c.xMax == toReal(argv[2]) && c.yMax == toReal(argv[3])
      && c.maxN == toInt(argv[4]) && c.x == toInt(argv[5])
      && c.y == toInt(argv[6]) && c.dim == toInt(argv[7])
      && c.servers == argv[8..]
    ensures |argv| < 9 ==> c == Defaults
  {
    if |argv| >= 9 then
      Config(toReal(argv[0]), toReal(argv[1]), toReal(argv[2]), toReal(argv[3]),
             toInt(argv[4]), toInt(argv[5]), toInt(argv[6]), toInt(argv[7]),
             argv[8..])
    else
      Defaults
  }

  /**
   * The command line that asks for configuration c, with showReal and showInt
   * the text a user types for a number.
   */
  function CommandLine(c: Config, showReal: real -> string, showInt: int -> string): seq<string> {
    [showReal(c.xMin), showReal(c.yMin), showReal(c.xMax), showReal(c.yMax),
     showInt(c.maxN), showInt(c.x), showInt(c.y), showInt(c.dim)] + c.servers
  }

  /**
   * A command line written for a configuration with at least one server is read
   * back as that configuration, when the conversions undo the way the numbers
   * were written.
   */
  lemma ParseArgsReadsCommandLine(c: Config, showReal: real -> string, showInt: int -> string,
                                  toReal: string -> real, toInt: string -> int)
    requires |c.servers| >= 1
    requires forall r :: toReal(showReal(r)) == r
    requires forall n :: toInt(showInt(n)) == n
    ensures ParseArgs(CommandLine(c, showReal, showInt), toReal, toInt) == c
  {
    var argv := CommandLine(c, showReal, showInt);
    assert argv[8..] == c.servers;
  }

  /**
   * A configuration with no server cannot be asked for: its command line has
   * eight arguments and falls back to the defaults.
   */
  lemma NoServersFallsBack(c: Config, showReal: real -> string, showInt: int -> string,
                           toReal: string -> real, toInt: string -> int)
    requires c.servers == []
    ensures ParseArgs(CommandLine(c, showReal, showInt), toReal, toInt) == Defaults
  {
  }
}
