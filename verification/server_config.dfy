/**
 * The server's startup configuration: the listen endpoint chosen from the
 * process arguments.
 */
module ServerConfig {

  /** The port as it reaches the listener: command-line text, or the numeric default. */
  datatype Port = PortText(text: string) | PortNumber(number: int)

  datatype Endpoint = Endpoint(ip: string, port: Port)

  const DefaultIp: string := "localhost"
  const DefaultPort: int := 3000

  /**
   * parseArgs(process.argv), where argv[0] is the runtime and argv[1] the
   * script: one extra argument is the port, two are the address and the port,
   * and any other count falls back to localhost:3000.
   */
  function ParseArgs(args: seq<string>): (e: Endpoint)
    ensures e.port.PortText? <==> |args| == 3 || |args| == 4
    ensures e.port.PortText? ==> e.port.text == args[|args| - 1]
    ensures e.port.PortNumber? ==> e.port.number == DefaultPort
    ensures e.ip == (if |args| == 4 then args[2] else DefaultIp)
  {
    if |args| == 3 then
      Endpoint(DefaultIp, PortText(args[2]))
    else if |args| == 4 then
      Endpoint(args[2], PortText(args[3]))
    else
      Endpoint(DefaultIp, PortNumber(DefaultPort))
  }

  /**
   * The startup command that asks for a given endpoint: `node app.js <PORT>`
   * for localhost, `node app.js <IP> <PORT>` otherwise.
   */
  function CommandLine(ip: string, port: string): seq<string> {
    ["node", "app.js"] + (if ip == DefaultIp then [] else [ip]) + [port]
  }

  /** Every valid startup command is read back as the endpoint it names. */
  lemma ParseArgsReadsCommandLine(ip: string, port: string)
    ensures ParseArgs(CommandLine(ip, port)) == Endpoint(ip, PortText(port))
  {
  }

  /** `node app.js <IP> <PORT>` names localhost explicitly just as well as `node app.js <PORT>`. */
  lemma ExplicitLocalhostSame(port: string)
    ensures ParseArgs(["node", "app.js", DefaultIp, port]) == ParseArgs(CommandLine(DefaultIp, port))
  {
  }
}
