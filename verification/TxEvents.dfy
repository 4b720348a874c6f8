/** nl80211 events as the daemon sees them. */
module TxEvents {
  datatype Event =
    | Ack(seqNo: nat, error: int)
    | Cookie(seqNo: nat, cookie: nat)
    | Status(ifindex: nat, cookie: nat, acked: bool)
    | RocCookie(seqNo: nat, cookie: nat)
    | Roc(ifindex: nat, cookie: nat, frequency: nat, ready: bool)
}
