/** enum pppoat_packet_type of src/packet.h. */
module PacketKind {
  datatype PacketType = Unknown | Send | Recv
}
