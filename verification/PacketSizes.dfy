/** Packet lengths on the wire, with the checksum, and in memory, without it. */
module PacketSizes {
  const PG_ETHER_CRC_LEN: nat := 4
  const PG_ETHER_MIN_LEN: nat := 64
  const PG_ETHER_MAX_LEN: nat := 1518
  const MIN_PKT_SIZE: nat := PG_ETHER_MIN_LEN - PG_ETHER_CRC_LEN
  const MAX_PKT_SIZE: nat := PG_ETHER_MAX_LEN - PG_ETHER_CRC_LEN
}
