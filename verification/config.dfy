/** The service configuration of src/config.rs: which images to track,
    which container-runtime socket to query, and where to serve metrics. */
module Config {

  datatype Config = Config(
    dockerImages: seq<string>,
    dockerSocket: string,
    listenAddress: string)

  /** The two ways validation fails, in the order they are checked. */
  datatype ConfigError = EmptyImages | EmptySocket {
    /** The message `validate` returns for this error. */
    function Message(): string {
      match this
      case EmptyImages => "docker_images can't be empty"
      case EmptySocket => "docker_socket can't be empty"
    }
  }

  datatype Validation = Valid | Invalid(error: ConfigError)

  /** The configuration used for every field the file leaves out. */
  function Default(): (c: Config)
    ensures |c.dockerImages| == 1 && c.dockerImages[0] == "atdr.meo.ws/archiveteam/urls-grab"
    ensures c.dockerSocket == "/var/run/docker.sock"
    ensures c.listenAddress == "0.0.0.0:8000"
  {
    Config(["atdr.meo.ws/archiveteam/urls-grab"], "/var/run/docker.sock", "0.0.0.0:8000")
  }

  /** Startup validation: both required fields must be non-empty, and an
      empty image list is reported before an empty socket. */
  function Validate(c: Config): (r: Validation)
    ensures r.Valid? <==> c.dockerImages != [] && c.dockerSocket != []
    ensures r == Invalid(EmptyImages) <==> c.dockerImages == []
    ensures r == Invalid(EmptySocket) <==> c.dockerImages != [] && c.dockerSocket == []
  {
    if |c.dockerImages| == 0 then Invalid(EmptyImages)
    else if |c.dockerSocket| == 0 then Invalid(EmptySocket)
    else Valid
  }

  /** The listen address plays no part in validation. */
  lemma ValidateIgnoresListenAddress(c: Config, address: string)
    ensures Validate(c.(listenAddress := address)) == Validate(c)
  {
  }

  /** The images check wins whatever the socket holds. */
  lemma EmptyImagesWins(c: Config)
    requires c.dockerImages == []
    ensures Validate(c).error.Message() == "docker_images can't be empty"
  {
  }

  /** The built-in defaults are a valid configuration. */
  lemma DefaultIsValid()
    ensures Validate(Default()) == Valid
  {
  }
}
