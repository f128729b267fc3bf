/** The reasons a URL or a relative reference is refused. */
module UrlError {
  import opened Text

  datatype ParseErr =
    | CredentialsNotAllowed
    | EmptyHost
    | InternationalHostUnsupported
    | InvalidCharacter(byte: Byte)
    | InvalidHost(host: Str)
    | InvalidIpv4(host: Str)
    | InvalidIpv6(host: Str)
    | InvalidPercentEncoding(index: nat)
    | InvalidPort(port: Str)
    | MissingAuthority
    | MissingScheme
    | PortOutOfRange(number: nat)
    | UnsupportedScheme(scheme: Str)
}
