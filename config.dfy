/** The constants of config.py and the literals the code repeats. */
module Config {

  /** Discovery datagrams go to this UDP port. */
  const UDP_PORT: nat := 50001

  /** The default TCP port of the file receiver, and the listen port assumed
      for a peer whose response does not name one. */
  const DEFAULT_TCP_PORT: nat := 50002

  /** Payload bytes are moved in chunks of at most one MiB. */
  const CHUNK_SIZE: nat := 1024 * 1024

  /** A peer is pruned once this many seconds have passed since it was last seen. */
  const EXPIRY_SECONDS: nat := 60

  /** `timedelta.seconds` is the seconds component of a duration: it wraps every day. */
  const SECONDS_PER_DAY: nat := 86400

  /** The transfer history keeps at most this many entries. */
  const HISTORY_LIMIT: nat := 50
}
