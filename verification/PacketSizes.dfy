/** Constants of packet memory. */
module PacketSizes {
  const PACKET_CHUNK_SIZE: nat := 12000
  const TRY_POP_COUNT: nat := 10
}
