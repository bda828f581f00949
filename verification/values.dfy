/** Protocol constants of the client. */
module Values {
  import opened Bytes

  /** Declared cap on string fields; no decoder of the codec consults it. */
  const MAX_STRING_SIZE: nat := 0x4000_0000

  /** A `u64` never needs more than ten varint bytes. */
  const MAX_VARINT_LEN64: nat := 10

  const CLICKHOUSE_CLIENT_NAME: string := "clickhouse-native-client"
  const CLICKHOUSE_VERSION_MAJOR: u64 := 0
  const CLICKHOUSE_VERSION_MINOR: u64 := 1
  const CLICKHOUSE_PROTOCOL_VERSION: u64 := 54451

  const CLICKHOUSE_DEFAULT_DATABASE: string := "default"
  const CLICKHOUSE_DEFAULT_USERNAME: string := "default"
  const CLICKHOUSE_DEFAULT_PASSWORD: string := ""
}
